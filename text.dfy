/**
 * The Python built-in string operations the scraper relies on, over `string` (= `seq<char>`):
 * `str.isspace`, `str.split()`, `str.split(sep)`, `sep.join`, `str.strip`, `str.lower` (ASCII
 * letters only), `int(str)` and `str(int)`.
 */
module Text {
  import opened Wrappers

  /** Python's `str.isspace()` for a single character. */
  predicate IsSpace(c: char) {
    || c == ' '
    || ('\t' <= c <= '\r')
    || ('\U{1c}' <= c <= '\U{1f}')
    || c == '\U{85}' || c == '\U{a0}' || c == '\U{1680}'
    || ('\U{2000}' <= c <= '\U{200a}')
    || c == '\U{2028}' || c == '\U{2029}' || c == '\U{202f}' || c == '\U{205f}' || c == '\U{3000}'
  }

  ghost predicate AllSpaces(s: string) {
    forall i :: 0 <= i < |s| ==> IsSpace(s[i])
  }

  ghost predicate NoSpace(s: string) {
    forall i :: 0 <= i < |s| ==> !IsSpace(s[i])
  }

  /** A word as `str.split()` produces it: non-empty, without whitespace. */
  ghost predicate IsWord(w: string) {
    |w| > 0 && NoSpace(w)
  }

  /** The text without its leading whitespace. */
  function DropSpaces(s: string): (r: string)
    ensures |r| <= |s|
  {
    if s != [] && IsSpace(s[0]) then DropSpaces(s[1..]) else s
  }

  /** `DropSpaces` removes a run of whitespace from the front and stops at the first other
      character. */
  lemma {:induction false} DropSpacesSpec(s: string)
    ensures var r := DropSpaces(s);
      && r == s[|s| - |r|..]
      && (r != [] ==> !IsSpace(r[0]))
      && (forall i :: 0 <= i < |s| - |r| ==> IsSpace(s[i]))
    decreases |s|
  {
    if s != [] && IsSpace(s[0]) {
      DropSpacesSpec(s[1..]);
    }
  }

  /** The text without its trailing whitespace. */
  function DropTrailingSpaces(s: string): (r: string)
    ensures |r| <= |s| && r == s[..|r|]
    ensures r != [] ==> !IsSpace(r[|r| - 1])
    ensures AllSpaces(s[|r|..])
  {
    if s != [] && IsSpace(s[|s| - 1]) then
      var r := DropTrailingSpaces(s[..|s| - 1]);
      assert s[|r|..] == s[..|s| - 1][|r|..] + [s[|s| - 1]];
      r
    else s
  }

  /** Python's `str.strip()`. */
  function Strip(s: string): string {
    DropTrailingSpaces(DropSpaces(s))
  }

  /** The longest prefix without whitespace. */
  function TakeWord(s: string): (w: string)
    ensures |w| <= |s|
    ensures s != [] && !IsSpace(s[0]) ==> |w| > 0
  {
    if s == [] || IsSpace(s[0]) then [] else [s[0]] + TakeWord(s[1..])
  }

  /** `TakeWord` takes the longest prefix without whitespace. */
  lemma {:induction false} TakeWordSpec(s: string)
    ensures var w := TakeWord(s);
      && w == s[..|w|]
      && NoSpace(w)
      && (|w| < |s| ==> IsSpace(s[|w|]))
    decreases |s|
  {
    if s != [] && !IsSpace(s[0]) {
      TakeWordSpec(s[1..]);
    }
  }

  /** Python's `str.split()` without argument: the maximal runs of non-whitespace characters, in order. */
  function Words(s: string): seq<string>
    decreases |s|
  {
    var t := DropSpaces(s);
    if t == [] then []
    else
      var w := TakeWord(t);
      [w] + Words(t[|w|..])
  }

  /** Python's `sep.join(ws)`. */
  function Join(ws: seq<string>, sep: string): string {
    if |ws| == 0 then ""
    else if |ws| == 1 then ws[0]
    else ws[0] + sep + Join(ws[1..], sep)
  }

  /** Text whose whitespace is already collapsed: no whitespace at either end, every whitespace
      character a plain space, and never two whitespace characters in a row. */
  ghost predicate Normalized(s: string) {
    && (|s| > 0 ==> !IsSpace(s[0]) && !IsSpace(s[|s| - 1]))
    && (forall i :: 0 <= i < |s| && IsSpace(s[i]) ==> s[i] == ' ')
    && (forall i :: 0 <= i < |s| - 1 ==> !SpacePair(s, i))
  }

  /** Positions `i` and `i + 1` both hold whitespace. */
  predicate SpacePair(s: string, i: int)
    requires 0 <= i < |s| - 1
  {
    IsSpace(s[i]) && IsSpace(s[i + 1])
  }

  lemma {:induction false} WordsAreWords(s: string)
    ensures forall i :: 0 <= i < |Words(s)| ==> IsWord(Words(s)[i])
    decreases |s|
  {
    var t := DropSpaces(s);
    if t != [] {
      var w := TakeWord(t);
      DropSpacesSpec(s);
      TakeWordSpec(t);
      WordsAreWords(t[|w|..]);
    }
  }

  lemma {:induction false} TakeWordBeforeSpace(w: string, rest: string)
    requires NoSpace(w) && (rest == [] || IsSpace(rest[0]))
    ensures TakeWord(w + rest) == w
  {
    if w == [] {
      assert w + rest == rest;
    } else {
      assert (w + rest)[1..] == w[1..] + rest;
      TakeWordBeforeSpace(w[1..], rest);
    }
  }

  lemma {:induction false} DropSpacesOfSpaces(sp: string, s: string)
    requires AllSpaces(sp)
    ensures DropSpaces(sp + s) == DropSpaces(s)
  {
    if sp == [] {
      assert sp + s == s;
    } else {
      assert (sp + s)[1..] == sp[1..] + s;
      DropSpacesOfSpaces(sp[1..], s);
    }
  }

  lemma WordsSkipSpaces(sp: string, s: string)
    requires AllSpaces(sp)
    ensures Words(sp + s) == Words(s)
  {
    DropSpacesOfSpaces(sp, s);
  }

  /** A word followed by whitespace is the first word of the text. */
  lemma WordsCons(w: string, sp: string, rest: string)
    requires IsWord(w) && |sp| > 0 && AllSpaces(sp)
    ensures Words(w + sp + rest) == [w] + Words(rest)
  {
    var s := w + sp + rest;
    assert s == w + (sp + rest);
    assert s[0] == w[0];
    assert DropSpaces(s) == s;
    TakeWordBeforeSpace(w, sp + rest);
    assert s[|w|..] == sp + rest;
    WordsSkipSpaces(sp, rest);
  }

  lemma WordsOfWord(w: string)
    requires IsWord(w)
    ensures Words(w) == [w]
  {
    assert w + [] == w;
    TakeWordBeforeSpace(w, []);
    assert DropSpaces(w) == w;
    assert w[|w|..] == [];
    assert Words(w) == [w] + Words([]);
  }

  lemma JoinCons(w: string, ws: seq<string>, sep: string)
    requires |ws| > 0
    ensures Join([w] + ws, sep) == w + sep + Join(ws, sep)
  {
    assert ([w] + ws)[1..] == ws;
  }

  lemma WordsOfSpaced(w: string, j: string, tail: seq<string>)
    requires IsWord(w) && Words(j) == tail
    ensures Words(w + " " + j) == [w] + tail
  {
    assert AllSpaces(" ");
    WordsCons(w, " ", j);
  }

  /** Splitting text built by joining words with single spaces gives back the words. */
  lemma {:induction false} WordsOfJoin(ws: seq<string>)
    requires forall i :: 0 <= i < |ws| ==> IsWord(ws[i])
    ensures Words(Join(ws, " ")) == ws
  {
    if |ws| == 1 {
      WordsOfWord(ws[0]);
    } else if |ws| > 1 {
      var tail := ws[1..];
      WordsOfJoin(tail);
      JoinCons(ws[0], tail, " ");
      assert ws == [ws[0]] + tail;
      WordsOfSpaced(ws[0], Join(tail, " "), tail);
    }
  }

  lemma {:induction false} JoinHead(ws: seq<string>)
    requires |ws| > 0 && IsWord(ws[0])
    ensures |Join(ws, " ")| > 0 && Join(ws, " ")[0] == ws[0][0]
  {
    if |ws| > 1 {
      assert Join(ws, " ") == ws[0] + " " + Join(ws[1..], " ");
    }
  }

  lemma {:induction false} JoinLast(ws: seq<string>)
    requires |ws| > 0 && IsWord(ws[|ws| - 1])
    ensures |Join(ws, " ")| > 0 && Join(ws, " ")[|Join(ws, " ")| - 1] == ws[|ws| - 1][|ws[|ws| - 1]| - 1]
  {
    if |ws| > 1 {
      JoinLast(ws[1..]);
    }
  }

  /** Joining words with single spaces yields collapsed text. */
  lemma {:induction false} JoinNormalized(ws: seq<string>)
    requires forall i :: 0 <= i < |ws| ==> IsWord(ws[i])
    ensures Normalized(Join(ws, " "))
  {
    if |ws| > 1 {
      var w, j := ws[0], Join(ws[1..], " ");
      JoinNormalized(ws[1..]);
      JoinHead(ws[1..]);
      JoinLast(ws[1..]);
      var s := w + " " + j;
      assert Join(ws, " ") == s;
      assert forall i :: 0 <= i < |w| ==> s[i] == w[i];
      assert s[|w|] == ' ';
      assert forall i :: |w| < i < |s| ==> s[i] == j[i - |w| - 1];
      forall i | 0 <= i < |s| - 1 ensures !SpacePair(s, i) {
        if i > |w| {
          assert !SpacePair(j, i - |w| - 1);
        }
      }
    }
  }

  // ---- str.split(sep) ----

  predicate StartsWith(s: string, prefix: string) {
    |prefix| <= |s| && s[..|prefix|] == prefix
  }

  /** Python's `sub in s`. */
  predicate Contains(s: string, sub: string)
    decreases |s|
  {
    StartsWith(s, sub) || (s != [] && Contains(s[1..], sub))
  }

  /** A one-character text occurs exactly where that character does. */
  lemma {:induction false} ContainsChar(s: string, c: char)
    ensures Contains(s, [c]) <==> exists i :: 0 <= i < |s| && s[i] == c
    decreases |s|
  {
    if s != [] {
      assert s[..1] == [s[0]];
      assert StartsWith(s, [c]) <==> s[0] == c;
      ContainsChar(s[1..], c);
      if exists i :: 0 <= i < |s[1..]| && s[1..][i] == c {
        var i :| 0 <= i < |s[1..]| && s[1..][i] == c;
        assert s[i + 1] == c;
      }
      if exists i :: 0 <= i < |s| && s[i] == c {
        var i :| 0 <= i < |s| && s[i] == c;
        if i > 0 {
          assert s[1..][i - 1] == c;
        }
      }
    }
  }

  /** Python's `s.split(sep)` for a non-empty separator: cut at each leftmost occurrence. */
  function SplitOn(s: string, sep: string): (parts: seq<string>)
    requires |sep| > 0
    ensures |parts| > 0
    decreases |s|
  {
    if StartsWith(s, sep) then [""] + SplitOn(s[|sep|..], sep)
    else if s == [] then [""]
    else
      var rest := SplitOn(s[1..], sep);
      [[s[0]] + rest[0]] + rest[1..]
  }

  /** Putting a character in front of the first piece puts it in front of the joined text. */
  lemma JoinPrepend(c: char, r: seq<string>, sep: string)
    requires |r| > 0
    ensures Join([[c] + r[0]] + r[1..], sep) == [c] + Join(r, sep)
  {
    if |r| > 1 {
      JoinCons([c] + r[0], r[1..], sep);
      JoinCons(r[0], r[1..], sep);
      assert [r[0]] + r[1..] == r;
    }
  }

  /** Text that starts with the separator joins back from the pieces after it. */
  lemma SplitOnJoinAtSep(s: string, sep: string)
    requires |sep| > 0 && StartsWith(s, sep)
    requires Join(SplitOn(s[|sep|..], sep), sep) == s[|sep|..]
    ensures Join(SplitOn(s, sep), sep) == s
  {
    var r := SplitOn(s[|sep|..], sep);
    assert SplitOn(s, sep) == [""] + r;
    JoinCons("", r, sep);
    assert s == sep + s[|sep|..];
  }

  /** Text that starts with another character joins back from the pieces after it. */
  lemma SplitOnJoinAtChar(s: string, sep: string)
    requires |sep| > 0 && !StartsWith(s, sep) && s != []
    requires Join(SplitOn(s[1..], sep), sep) == s[1..]
    ensures Join(SplitOn(s, sep), sep) == s
  {
    var r := SplitOn(s[1..], sep);
    assert SplitOn(s, sep) == [[s[0]] + r[0]] + r[1..];
    JoinPrepend(s[0], r, sep);
    assert s == [s[0]] + s[1..];
  }

  /** Joining the pieces with the separator gives back the text. */
  lemma {:induction false} SplitOnJoin(s: string, sep: string)
    requires |sep| > 0
    ensures Join(SplitOn(s, sep), sep) == s
    decreases |s|
  {
    if StartsWith(s, sep) {
      SplitOnJoin(s[|sep|..], sep);
      SplitOnJoinAtSep(s, sep);
    } else if s != [] {
      SplitOnJoin(s[1..], sep);
      SplitOnJoinAtChar(s, sep);
    }
  }

  /** Text without the separator is one piece. */
  lemma {:induction false} SplitOnAbsent(s: string, sep: string)
    requires |sep| > 0 && !Contains(s, sep)
    ensures SplitOn(s, sep) == [s]
    decreases |s|
  {
    if s != [] {
      SplitOnAbsent(s[1..], sep);
      assert [s[0]] + s[1..] == s;
    }
  }

  /** With a one-character separator, a first piece without it is cut off exactly. */
  lemma {:induction false} SplitOnFirst(a: string, sep: string, b: string)
    requires |sep| == 1 && !Contains(a, sep)
    ensures SplitOn(a + (sep + b), sep) == [a] + SplitOn(b, sep)
    decreases |a|
  {
    var s := a + (sep + b);
    if a == [] {
      assert s == sep + b;
      assert StartsWith(s, sep);
      assert s[|sep|..] == b;
    } else {
      assert s[0] == a[0];
      assert !StartsWith(a, sep);
      assert !StartsWith(s, sep);
      assert s[1..] == a[1..] + (sep + b);
      SplitOnFirst(a[1..], sep, b);
      assert [a[0]] + a[1..] == a;
    }
  }

  /** A leading separator gives an empty first piece. */
  lemma SplitOnLead(sep: string, rest: string)
    requires |sep| == 1
    ensures SplitOn(sep + rest, sep) == [""] + SplitOn(rest, sep)
  {
    assert sep + rest == [] + (sep + rest);
    assert !Contains([], sep);
    SplitOnFirst([], sep, rest);
  }

  /** The first piece ends at the first separator, or at the end of the text. */
  lemma SplitOnFirstPiece(sep: string, a: string, rest: string)
    requires |sep| == 1 && !Contains(a, sep)
    requires rest == [] || rest[0] == sep[0]
    ensures SplitOn(a + rest, sep)[0] == a
  {
    if rest == [] {
      assert a + rest == a;
      SplitOnAbsent(a, sep);
    } else {
      assert rest == sep + rest[1..];
      SplitOnFirst(a, sep, rest[1..]);
    }
  }

  // ---- int(str) and str(int) ----

  predicate IsDigit(c: char) {
    '0' <= c <= '9'
  }

  predicate AllDigits(s: string) {
    forall i :: 0 <= i < |s| ==> IsDigit(s[i])
  }

  function DigitChar(d: nat): (c: char)
    requires d < 10
    ensures IsDigit(c) && c as int - '0' as int == d
  {
    ('0' as int + d) as char
  }

  /** The value of a string of decimal digits, most significant first. */
  function DigitsValue(ds: string): nat
    requires AllDigits(ds)
  {
    if ds == [] then 0 else DigitsValue(ds[..|ds| - 1]) * 10 + (ds[|ds| - 1] as int - '0' as int)
  }

  /** Python's `str(n)` for a non-negative integer. */
  function NatToString(n: nat): (s: string)
    ensures |s| > 0 && AllDigits(s)
  {
    if n < 10 then [DigitChar(n)] else NatToString(n / 10) + [DigitChar(n % 10)]
  }

  /** Python's `str(n)` (and an f-string's `{n}`) for an integer. */
  function IntToString(n: int): string {
    if n < 0 then "-" + NatToString(-n) else NatToString(n)
  }

  /** Python's `int(s)`: optional surrounding whitespace, an optional sign, then ASCII digits;
      `None` where Python raises `ValueError`. */
  function ParseInt(s: string): Option<int> {
    var t := Strip(s);
    if |t| > 0 && (t[0] == '-' || t[0] == '+') then
      var ds := t[1..];
      if |ds| > 0 && AllDigits(ds) then
        var v: int := DigitsValue(ds);
        Some(if t[0] == '-' then -v else v)
      else None
    else if |t| > 0 && AllDigits(t) then Some(DigitsValue(t))
    else None
  }

  lemma {:induction false} NatToStringValue(n: nat)
    ensures DigitsValue(NatToString(n)) == n
  {
    var s := NatToString(n);
    if n >= 10 {
      NatToStringValue(n / 10);
      assert s[..|s| - 1] == NatToString(n / 10);
    }
  }

  lemma StripUnchanged(s: string)
    requires |s| > 0 && !IsSpace(s[0]) && !IsSpace(s[|s| - 1])
    ensures Strip(s) == s
  {
  }

  lemma ParseIntOfDigits(s: string)
    requires |s| > 0 && AllDigits(s)
    ensures ParseInt(s) == Some(DigitsValue(s))
  {
    assert IsDigit(s[0]) && IsDigit(s[|s| - 1]);
    StripUnchanged(s);
  }

  lemma ParseIntOfNegative(s: string, ds: string, v: int)
    requires |s| > 1 && s[0] == '-' && s[1..] == ds && AllDigits(ds) && DigitsValue(ds) == v
    ensures ParseInt(s) == Some(-v)
  {
    assert IsDigit(ds[|s| - 2]);
    StripUnchanged(s);
  }

  lemma NatToStringParses(n: nat)
    ensures ParseInt(NatToString(n)) == Some(n)
  {
    NatToStringValue(n);
    ParseIntOfDigits(NatToString(n));
  }

  /** `int(str(n)) == n`. */
  lemma IntToStringParses(n: int)
    ensures ParseInt(IntToString(n)) == Some(n)
  {
    var s := IntToString(n);
    if n < 0 {
      var ds := NatToString(-n);
      NatToStringValue(-n);
      assert s[1..] == ds;
      ParseIntOfNegative(s, ds, -n);
    } else {
      NatToStringParses(n);
    }
  }

  /** `str` is injective on integers. */
  lemma IntToStringInjective(m: int, n: int)
    requires IntToString(m) == IntToString(n)
    ensures m == n
  {
    IntToStringParses(m);
    IntToStringParses(n);
  }

  // ---- str.lower() ----

  function LowerChar(c: char): char {
    if 'A' <= c <= 'Z' then (c as int - 'A' as int + 'a' as int) as char else c
  }

  /** Python's `str.lower()` on ASCII letters (other characters are left as they are). */
  function Lower(s: string): (r: string)
    ensures |r| == |s| && forall i :: 0 <= i < |s| ==> r[i] == LowerChar(s[i])
  {
    if s == [] then [] else [LowerChar(s[0])] + Lower(s[1..])
  }
}
