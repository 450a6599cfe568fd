/**
 * mpscraper/utils.py: whitespace collapsing, the hour difference of two instants and the
 * keep-last removal of duplicate dataset rows. The file and clock helpers are not modelled.
 */
module Utils {
  import opened Text
  import opened Types

  // ---- format_text ----

  /** `format_text`: the words of the text joined by single spaces. */
  function FormatText(text: string): string {
    Join(Words(text), " ")
  }

  /** The result of `format_text` is collapsed text with the same words in the same order. */
  lemma FormatTextMeaning(text: string)
    ensures Normalized(FormatText(text))
    ensures Words(FormatText(text)) == Words(text)
  {
    WordsAreWords(text);
    JoinNormalized(Words(text));
    WordsOfJoin(Words(text));
  }

  lemma FormatTextIdempotent(text: string)
    ensures FormatText(FormatText(text)) == FormatText(text)
  {
    FormatTextMeaning(text);
  }

  /** Collapsing text that starts with a word and a run of whitespace keeps the word and puts one
      space after it. */
  lemma FormatTextCons(w: string, sp: string, rest: string)
    requires IsWord(w) && |sp| > 0 && AllSpaces(sp) && Words(rest) != []
    ensures FormatText(w + sp + rest) == w + " " + FormatText(rest)
  {
    WordsCons(w, sp, rest);
    JoinCons(w, Words(rest), " ");
  }

  lemma FormatTextOfWord(w: string)
    requires IsWord(w)
    ensures FormatText(w) == w
  {
    WordsOfWord(w);
  }

  /** Five words with whitespace runs between them collapse to the words joined by single spaces. */
  lemma FormatTextOfFive(a: string, b: string, c: string, d: string, e: string,
                         g1: string, g2: string, g3: string, g4: string)
    requires IsWord(a) && IsWord(b) && IsWord(c) && IsWord(d) && IsWord(e)
    requires |g1| > 0 && AllSpaces(g1) && |g2| > 0 && AllSpaces(g2)
    requires |g3| > 0 && AllSpaces(g3) && |g4| > 0 && AllSpaces(g4)
    ensures FormatText(a + g1 + (b + g2 + (c + g3 + (d + g4 + e))))
         == a + " " + (b + " " + (c + " " + (d + " " + e)))
  {
    WordsOfWord(e);
    FormatTextOfWord(e);
    FormatTextCons(d, g4, e);
    WordsCons(d, g4, e);
    FormatTextCons(c, g3, d + g4 + e);
    WordsCons(c, g3, d + g4 + e);
    FormatTextCons(b, g2, c + g3 + (d + g4 + e));
    WordsCons(b, g2, c + g3 + (d + g4 + e));
    FormatTextCons(a, g1, b + g2 + (c + g3 + (d + g4 + e)));
  }

  /** The example of the test suite, with the runs of spaces of its input written apart. */
  lemma FormatTextExample()
    ensures FormatText("Text" + "    " + ("with" + "            " + ("too" + " " + ("much" + "   " + "spacing"))))
         == "Text with too much spacing"
  {
    assert "Text" + " " + ("with" + " " + ("too" + " " + ("much" + " " + "spacing"))) == "Text with too much spacing";
    FormatTextOfFive("Text", "with", "too", "much", "spacing", "    ", "            ", " ", "   ");
  }

  // ---- diff_hours ----

  const MicrosPerSecond: int := 1_000_000
  const SecondsPerDay: int := 86_400
  const MicrosPerDay: int := SecondsPerDay * MicrosPerSecond

  /** `diff_hours(first, last)` for instants given in microseconds: `last - first` as a
      `timedelta` is split into whole days and `0 <= seconds < 86400` (its microseconds are
      ignored), and the result is `days * 24 + seconds / 3600`. */
  function DiffHours(first: int, last: int): real {
    var micros := last - first;
    var days := micros / MicrosPerDay;
    var seconds := micros % MicrosPerDay / MicrosPerSecond;
    (days * 24) as real + seconds as real / 3600.0
  }

  /** Whole seconds of a span in microseconds, via whole days and the seconds left over. */
  lemma DivSplit(m: int)
    ensures m / 1_000_000 == (m / 86_400_000_000) * 86_400 + (m % 86_400_000_000) / 1_000_000
  {
    var days := m / 86_400_000_000;
    var rest := m % 86_400_000_000;
    var seconds := rest / 1_000_000;
    var sub := rest % 1_000_000;
    assert m == days * 86_400_000_000 + rest;
    assert rest == seconds * 1_000_000 + sub;
    assert m == (days * 86_400 + seconds) * 1_000_000 + sub;
  }

  /** The hour difference is the elapsed time in whole seconds (rounded down) divided by 3600. */
  lemma {:induction false} DiffHoursWholeSeconds(first: int, last: int)
    ensures DiffHours(first, last) == ((last - first) / MicrosPerSecond) as real / 3600.0
  {
    var micros := last - first;
    DivSplit(micros);
    var days := micros / MicrosPerDay;
    var seconds := micros % MicrosPerDay / MicrosPerSecond;
    assert ((days * SecondsPerDay + seconds) as real) / 3600.0
        == (days * 24) as real + seconds as real / 3600.0;
  }

  /** An offset of a whole number of seconds comes back exactly, as the test suite checks for
      0.5, 1.0, 2.5, 3.99, 4.33 and 5.00 hours. */
  lemma DiffHoursOfOffset(now: int, seconds: int)
    ensures DiffHours(now - seconds * MicrosPerSecond, now) == seconds as real / 3600.0
  {
    DiffHoursWholeSeconds(now - seconds * MicrosPerSecond, now);
    assert now - (now - seconds * MicrosPerSecond) == seconds * MicrosPerSecond;
  }

  lemma DiffHoursTestOffsets(now: int)
    ensures DiffHours(now - 1800 * MicrosPerSecond, now) == 0.5
    ensures DiffHours(now - 3600 * MicrosPerSecond, now) == 1.0
    ensures DiffHours(now - 9000 * MicrosPerSecond, now) == 2.5
    ensures DiffHours(now - 14364 * MicrosPerSecond, now) == 3.99
    ensures DiffHours(now - 15588 * MicrosPerSecond, now) == 4.33
    ensures DiffHours(now - 18000 * MicrosPerSecond, now) == 5.00
  {
    DiffHoursOfOffset(now, 1800);
    DiffHoursOfOffset(now, 3600);
    DiffHoursOfOffset(now, 9000);
    DiffHoursOfOffset(now, 14364);
    DiffHoursOfOffset(now, 15588);
    DiffHoursOfOffset(now, 18000);
  }

  /** The difference is negative exactly when `last` precedes `first`. */
  lemma DiffHoursSign(first: int, last: int)
    ensures DiffHours(first, last) < 0.0 <==> last < first
  {
    DiffHoursWholeSeconds(first, last);
  }

  /** A later `last` never gives a smaller difference. */
  lemma DiffHoursMonotone(first: int, last: int, later: int)
    requires last <= later
    ensures DiffHours(first, last) <= DiffHours(first, later)
  {
    DiffHoursWholeSeconds(first, last);
    DiffHoursWholeSeconds(first, later);
    var a, b := (last - first) / 1_000_000, (later - first) / 1_000_000;
    assert a <= b;
    assert a as real / 3600.0 <= b as real / 3600.0;
  }

  // ---- remove_duplicate_listings ----

  /** The set of `item_id` values of the rows. */
  function ItemIds(rows: seq<Listing>): set<string> {
    if rows == [] then {} else {rows[0].itemId} + ItemIds(rows[1..])
  }

  ghost predicate DistinctIds(rows: seq<Listing>) {
    forall i, j :: 0 <= i < j < |rows| ==> rows[i].itemId != rows[j].itemId
  }

  /** `remove_duplicate_listings`: `drop_duplicates(subset=["item_id"], keep="last")`, which keeps
      a row exactly when no later row has its `item_id`, in the original order. */
  function RemoveDuplicateListings(rows: seq<Listing>): seq<Listing> {
    if rows == [] then []
    else if rows[0].itemId in ItemIds(rows[1..]) then RemoveDuplicateListings(rows[1..])
    else [rows[0]] + RemoveDuplicateListings(rows[1..])
  }

  /** The last row with the given id. */
  function LastWith(rows: seq<Listing>, id: string): Listing
    requires id in ItemIds(rows)
  {
    if rows[0].itemId == id && id !in ItemIds(rows[1..]) then rows[0] else LastWith(rows[1..], id)
  }

  /** `sub` is `rows` with some rows left out, the rest in their order. */
  ghost predicate IsSubsequence(sub: seq<Listing>, rows: seq<Listing>) {
    if sub == [] then true
    else if rows == [] then false
    else (sub[0] == rows[0] && IsSubsequence(sub[1..], rows[1..])) || IsSubsequence(sub, rows[1..])
  }

  lemma {:induction false} ItemIdsMembership(rows: seq<Listing>, id: string)
    ensures id in ItemIds(rows) <==> exists i :: 0 <= i < |rows| && rows[i].itemId == id
  {
    if rows != [] {
      ItemIdsMembership(rows[1..], id);
      if id in ItemIds(rows[1..]) {
        var i :| 0 <= i < |rows[1..]| && rows[1..][i].itemId == id;
        assert rows[i + 1].itemId == id;
      }
      if exists i :: 0 <= i < |rows| && rows[i].itemId == id {
        var i :| 0 <= i < |rows| && rows[i].itemId == id;
        if i > 0 {
          assert rows[1..][i - 1].itemId == id;
        }
      }
    }
  }

  lemma {:induction false} ItemIdsAppend(rows: seq<Listing>, more: seq<Listing>)
    ensures ItemIds(rows + more) == ItemIds(rows) + ItemIds(more)
  {
    if rows == [] {
      assert rows + more == more;
    } else {
      assert (rows + more)[1..] == rows[1..] + more;
      ItemIdsAppend(rows[1..], more);
    }
  }

  /** Appending a row keeps the ids distinct exactly when its id is new. */
  lemma DistinctIdsAppend(rows: seq<Listing>, row: Listing)
    ensures ItemIds(rows + [row]) == ItemIds(rows) + {row.itemId}
    ensures DistinctIds(rows + [row]) <==> DistinctIds(rows) && row.itemId !in ItemIds(rows)
  {
    var all := rows + [row];
    ItemIdsAppend(rows, [row]);
    assert ItemIds([row]) == {row.itemId};
    ItemIdsMembership(rows, row.itemId);
    if DistinctIds(all) {
      forall i, j | 0 <= i < j < |rows| ensures rows[i].itemId != rows[j].itemId {
        assert all[i] == rows[i] && all[j] == rows[j];
      }
      forall i | 0 <= i < |rows| ensures rows[i].itemId != row.itemId {
        assert all[i] == rows[i] && all[|rows|] == row;
      }
    }
    if DistinctIds(rows) && row.itemId !in ItemIds(rows) {
      forall i, j | 0 <= i < j < |all| ensures all[i].itemId != all[j].itemId {
        if j < |rows| {
          assert all[i] == rows[i] && all[j] == rows[j];
        } else {
          assert all[i] == rows[i] && all[j] == row;
        }
      }
    }
  }

  lemma {:induction false} DedupeKeepsIds(rows: seq<Listing>)
    ensures ItemIds(RemoveDuplicateListings(rows)) == ItemIds(rows)
  {
    if rows != [] {
      DedupeKeepsIds(rows[1..]);
      if rows[0].itemId !in ItemIds(rows[1..]) {
        ItemIdsAppend([rows[0]], RemoveDuplicateListings(rows[1..]));
        assert ItemIds([rows[0]]) == {rows[0].itemId};
      }
    }
  }

  /** No two surviving rows share an `item_id`. */
  lemma DistinctCons(row: Listing, rest: seq<Listing>)
    requires DistinctIds(rest) && row.itemId !in ItemIds(rest)
    ensures DistinctIds([row] + rest)
  {
    ItemIdsMembership(rest, row.itemId);
    var out := [row] + rest;
    forall i, j | 0 <= i < j < |out| ensures out[i].itemId != out[j].itemId {
      assert out[j] == rest[j - 1];
      if i > 0 {
        assert out[i] == rest[i - 1];
      }
    }
  }

  lemma {:induction false} DedupeDistinct(rows: seq<Listing>)
    ensures DistinctIds(RemoveDuplicateListings(rows))
  {
    if rows != [] {
      var rest := RemoveDuplicateListings(rows[1..]);
      DedupeDistinct(rows[1..]);
      if rows[0].itemId !in ItemIds(rows[1..]) {
        DedupeKeepsIds(rows[1..]);
        DistinctCons(rows[0], rest);
      }
    }
  }

  /** Every surviving row is the last row of the input with its `item_id`. */
  lemma {:induction false} DedupeKeepsLast(rows: seq<Listing>)
    ensures forall k :: 0 <= k < |RemoveDuplicateListings(rows)| ==>
      RemoveDuplicateListings(rows)[k].itemId in ItemIds(rows) &&
      RemoveDuplicateListings(rows)[k] == LastWith(rows, RemoveDuplicateListings(rows)[k].itemId)
  {
    if rows != [] {
      var rest := RemoveDuplicateListings(rows[1..]);
      var out := RemoveDuplicateListings(rows);
      DedupeKeepsLast(rows[1..]);
      DedupeKeepsIds(rows[1..]);
      if rows[0].itemId in ItemIds(rows[1..]) {
        forall k | 0 <= k < |out| ensures out[k].itemId in ItemIds(rows) && out[k] == LastWith(rows, out[k].itemId) {
          assert out[k] == rest[k];
        }
      } else {
        forall k | 0 <= k < |out| ensures out[k].itemId in ItemIds(rows) && out[k] == LastWith(rows, out[k].itemId) {
          if k > 0 {
            assert out[k] == rest[k - 1];
            ItemIdsMembership(rest, rest[k - 1].itemId);
            assert rest[k - 1].itemId in ItemIds(rows[1..]);
          }
        }
      }
    }
  }

  /** The surviving rows keep their relative order. */
  lemma {:induction false} DedupeIsSubsequence(rows: seq<Listing>)
    ensures IsSubsequence(RemoveDuplicateListings(rows), rows)
  {
    if rows != [] {
      var rest := RemoveDuplicateListings(rows[1..]);
      DedupeIsSubsequence(rows[1..]);
      if rows[0].itemId !in ItemIds(rows[1..]) {
        assert ([rows[0]] + rest)[1..] == rest;
      } else if rest != [] {
        assert IsSubsequence(rest, rows[1..]);
      }
    }
  }

  /** Row `i` is the last row with its `item_id`: no later row has it. */
  ghost predicate LastOfItsId(rows: seq<Listing>, i: int) {
    0 <= i < |rows| && rows[i].itemId !in ItemIds(rows[i + 1..])
  }

  /** `pos` lists, in increasing order, exactly the positions where `holds` holds. */
  ghost predicate Positions(holds: int -> bool, pos: seq<int>) {
    && (forall k :: 0 <= k < |pos| ==> holds(pos[k]))
    && (forall k, l :: 0 <= k < l < |pos| ==> pos[k] < pos[l])
    && (forall i :: holds(i) ==> i in pos)
  }

  /** `pos` lists, in increasing order, exactly the positions of the rows that are the last with
      their `item_id`. */
  ghost predicate LastPositions(rows: seq<Listing>, pos: seq<int>) {
    Positions(i => LastOfItsId(rows, i), pos)
  }

  /** Past the first row, being last with its id is the same in the rows and in their tail. */
  lemma LastOfItsIdTail(rows: seq<Listing>, i: int)
    requires rows != [] && 0 <= i
    ensures LastOfItsId(rows, i + 1) <==> LastOfItsId(rows[1..], i)
  {
    if i < |rows| - 1 {
      assert rows[1..][i + 1..] == rows[i + 2..];
      assert rows[1..][i] == rows[i + 1];
    }
  }

  /** Every position one further on. */
  ghost function Shift(p: seq<int>): (r: seq<int>)
    ensures |r| == |p| && forall k :: 0 <= k < |p| ==> r[k] == p[k] + 1
  {
    seq(|p|, k requires 0 <= k < |p| => p[k] + 1)
  }

  /** `pos` lists, in increasing order, exactly the positive positions where `holds` holds. */
  ghost predicate PositivePositions(holds: int -> bool, pos: seq<int>) {
    && (forall k :: 0 <= k < |pos| ==> holds(pos[k]) && pos[k] > 0)
    && (forall k, l :: 0 <= k < l < |pos| ==> pos[k] < pos[l])
    && (forall i :: holds(i) && i > 0 ==> i in pos)
  }

  /** When `holds` at `i + 1` is `tail` at `i`, the positions of `tail` one further on are the
      positive positions of `holds`. */
  lemma PositionsShift(holds: int -> bool, tail: int -> bool, p: seq<int>)
    requires forall i {:trigger tail(i)} :: 0 <= i ==> (holds(i + 1) <==> tail(i))
    requires forall i :: tail(i) ==> 0 <= i
    requires Positions(tail, p)
    ensures PositivePositions(holds, Shift(p))
  {
    var shifted := Shift(p);
    forall k | 0 <= k < |shifted| ensures holds(shifted[k]) && shifted[k] > 0 {
      assert tail(p[k]);
    }
    forall i | holds(i) && i > 0 ensures i in shifted {
      assert tail(i - 1);
      var k :| 0 <= k < |p| && p[k] == i - 1;
      assert shifted[k] == i;
    }
  }

  /** Position 0 in front of the positive positions gives all positions, when `holds` holds at 0. */
  lemma PositionsWithZero(holds: int -> bool, q: seq<int>)
    requires forall i :: holds(i) ==> 0 <= i
    requires PositivePositions(holds, q) && holds(0)
    ensures Positions(holds, [0] + q)
  {
    var pos := [0] + q;
    assert forall k :: 0 < k < |pos| ==> pos[k] == q[k - 1];
    forall i | holds(i) ensures i in pos {
      if i > 0 {
        var k :| 0 <= k < |q| && q[k] == i;
        assert pos[k + 1] == i;
      }
    }
  }

  /** When `holds` at `i + 1` is `tail` at `i`, the positions of `tail` one further on are those
      of `holds` past 0; position 0 joins them when `holds` holds there. */
  lemma PositionsCons(holds: int -> bool, tail: int -> bool, p: seq<int>)
    requires forall i {:trigger tail(i)} :: 0 <= i ==> (holds(i + 1) <==> tail(i))
    requires forall i :: holds(i) ==> 0 <= i
    requires forall i :: tail(i) ==> 0 <= i
    requires Positions(tail, p)
    ensures !holds(0) ==> Positions(holds, Shift(p))
    ensures holds(0) ==> Positions(holds, [0] + Shift(p))
  {
    PositionsShift(holds, tail, p);
    if holds(0) {
      PositionsWithZero(holds, Shift(p));
    }
  }

  /** The last positions of the tail, one further on, are those of the rows past the first; the
      first row joins them when it is the last with its id. */
  lemma LastPositionsCons(rows: seq<Listing>, p: seq<int>)
    requires rows != [] && LastPositions(rows[1..], p)
    ensures !LastOfItsId(rows, 0) ==> LastPositions(rows, Shift(p))
    ensures LastOfItsId(rows, 0) ==> LastPositions(rows, [0] + Shift(p))
  {
    var holds := i => LastOfItsId(rows, i);
    var tail := i => LastOfItsId(rows[1..], i);
    forall i | 0 <= i ensures holds(i + 1) <==> tail(i) {
      LastOfItsIdTail(rows, i);
    }
    PositionsCons(holds, tail, p);
  }

  /** Row `k` of `out` is row `pos[k]` of `rows`. */
  ghost predicate RowsAt(out: seq<Listing>, rows: seq<Listing>, pos: seq<int>) {
    |pos| == |out| && forall k :: 0 <= k < |pos| ==> 0 <= pos[k] < |rows| && out[k] == rows[pos[k]]
  }

  /** Rows picked from the tail are picked from the rows one position further on; the first row
      joins them at position 0. */
  lemma RowsAtCons(rows: seq<Listing>, out: seq<Listing>, p: seq<int>)
    requires rows != [] && RowsAt(out, rows[1..], p)
    ensures RowsAt(out, rows, Shift(p))
    ensures RowsAt([rows[0]] + out, rows, [0] + Shift(p))
  {
    var shifted := Shift(p);
    forall k | 0 <= k < |p| ensures rows[shifted[k]] == out[k] {
      assert rows[1..][p[k]] == rows[p[k] + 1];
    }
    var pos := [0] + shifted;
    forall k | 0 < k < |pos| ensures pos[k] == shifted[k - 1] && ([rows[0]] + out)[k] == out[k - 1] {
    }
  }

  /** `drop_duplicates(keep="last")` keeps exactly the last row of each id, at its position: the
      survivors are the rows at the increasing positions of the last occurrences. For `[A, B, A]`
      these are positions 1 and 2, so the result is `[B, A]`. */
  lemma {:induction false} DedupeInLastOrder(rows: seq<Listing>)
    ensures exists pos :: LastPositions(rows, pos) && RowsAt(RemoveDuplicateListings(rows), rows, pos)
  {
    if rows == [] {
      assert LastPositions(rows, []) && RowsAt([], rows, []);
    } else {
      var rest := RemoveDuplicateListings(rows[1..]);
      DedupeInLastOrder(rows[1..]);
      var p :| LastPositions(rows[1..], p) && RowsAt(rest, rows[1..], p);
      LastPositionsCons(rows, p);
      RowsAtCons(rows, rest, p);
      assert rows[0 + 1..] == rows[1..];
      if LastOfItsId(rows, 0) {
        assert RemoveDuplicateListings(rows) == [rows[0]] + rest;
        assert LastPositions(rows, [0] + Shift(p)) && RowsAt([rows[0]] + rest, rows, [0] + Shift(p));
      } else {
        assert RemoveDuplicateListings(rows) == rest;
        assert LastPositions(rows, Shift(p)) && RowsAt(rest, rows, Shift(p));
      }
    }
  }

  /** The rest of distinct rows is distinct and does not hold the first id. */
  lemma DistinctTail(rows: seq<Listing>)
    requires DistinctIds(rows) && rows != []
    ensures DistinctIds(rows[1..]) && rows[0].itemId !in ItemIds(rows[1..])
  {
    var tail := rows[1..];
    forall i, j | 0 <= i < j < |tail| ensures tail[i].itemId != tail[j].itemId {
      assert tail[i] == rows[i + 1] && tail[j] == rows[j + 1];
    }
    forall k | 0 <= k < |tail| ensures tail[k].itemId != rows[0].itemId {
      assert tail[k] == rows[k + 1];
    }
    ItemIdsMembership(tail, rows[0].itemId);
  }

  /** Rows with distinct ids are left as they are. */
  lemma {:induction false} DedupeOfDistinct(rows: seq<Listing>)
    requires DistinctIds(rows)
    ensures RemoveDuplicateListings(rows) == rows
  {
    if rows != [] {
      DistinctTail(rows);
      DedupeOfDistinct(rows[1..]);
      assert rows == [rows[0]] + rows[1..];
    }
  }

  lemma DedupeIdempotent(rows: seq<Listing>)
    ensures RemoveDuplicateListings(RemoveDuplicateListings(rows)) == RemoveDuplicateListings(rows)
  {
    DedupeDistinct(rows);
    DedupeOfDistinct(RemoveDuplicateListings(rows));
  }

  lemma {:induction false} DistinctIdsCount(rows: seq<Listing>)
    requires DistinctIds(rows)
    ensures |ItemIds(rows)| == |rows|
  {
    if rows != [] {
      DistinctTail(rows);
      DistinctIdsCount(rows[1..]);
    }
  }

  /** Exactly one row per distinct `item_id` survives. */
  lemma DedupeSize(rows: seq<Listing>)
    ensures |RemoveDuplicateListings(rows)| == |ItemIds(rows)|
  {
    DedupeDistinct(rows);
    DedupeKeepsIds(rows);
    DistinctIdsCount(RemoveDuplicateListings(rows));
  }
}
