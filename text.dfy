/**
 * The few JavaScript string operations the deck-path derivation uses,
 * written out with their exact JavaScript behaviour:
 *   - `s.replace(/x/g, y)` for a single character x  -> ReplaceChar
 *   - `s.split(c)` for a single character c           -> SplitOn
 *   - `parts.filter(Boolean)` on strings               -> FilterNonEmpty
 *   - `parts.join(sep)`                                -> Join
 */
module Text {

  /** Every occurrence of `from` replaced by `to`, all other characters kept in place. */
  function ReplaceChar(s: string, from: char, to: char): (r: string)
    ensures |r| == |s|
    ensures forall i :: 0 <= i < |s| ==> r[i] == (if s[i] == from then to else s[i])
  {
    if s == [] then []
    else [if s[0] == from then to else s[0]] + ReplaceChar(s[1..], from, to)
  }

  /**
   * JavaScript `split` on one character: the pieces between consecutive
   * occurrences of `c`, empty pieces included, so that "" gives [""] and a
   * string with n occurrences of `c` gives n + 1 pieces.
   */
  function SplitOn(s: string, c: char): (r: seq<string>)
    ensures |r| >= 1
    ensures forall i :: 0 <= i < |r| ==> c !in r[i]
    ensures forall i, d :: 0 <= i < |r| && d in r[i] ==> d in s
  {
    if s == [] then [""]
    else
      var rest := SplitOn(s[1..], c);
      assert forall d :: d in s[1..] ==> d in s;
      if s[0] == c then [""] + rest
      else [[s[0]] + rest[0]] + rest[1..]
  }

  /** JavaScript `filter(Boolean)` on strings: the non-empty ones, in order. */
  function FilterNonEmpty(parts: seq<string>): (r: seq<string>)
    ensures |r| <= |parts|
    ensures forall i :: 0 <= i < |r| ==> r[i] != ""
    ensures forall x :: x in r ==> x in parts
    ensures forall x :: x in parts && x != "" ==> x in r
  {
    if parts == [] then []
    else (if parts[0] == "" then [] else [parts[0]]) + FilterNonEmpty(parts[1..])
  }

  /** The total number of characters in `parts`. */
  function TotalLength(parts: seq<string>): nat
  {
    if parts == [] then 0 else |parts[0]| + TotalLength(parts[1..])
  }

  /**
   * JavaScript `join`: the parts with `sep` between neighbours; [] gives "".
   * The contract gives the length (the parts' total length plus one separator
   * per neighbouring pair) and the first part as a prefix; with JoinSnoc this
   * fixes the result.
   */
  function Join(parts: seq<string>, sep: string): (r: string)
    ensures |parts| == 0 ==> r == ""
    ensures |parts| > 0 ==> |r| == TotalLength(parts) + (|parts| - 1) * |sep|
    ensures |parts| > 0 ==> parts[0] <= r
  {
    if |parts| == 0 then ""
    else if |parts| == 1 then parts[0]
    else parts[0] + sep + Join(parts[1..], sep)
  }

  // ----- ReplaceChar -----

  /** Replacing a character distributes over concatenation. */
  lemma ReplaceCharAppend(a: string, b: string, from: char, to: char)
    ensures ReplaceChar(a + b, from, to) == ReplaceChar(a, from, to) + ReplaceChar(b, from, to)
  {
  }

  /** A string without `from` is left as it is. */
  lemma ReplaceCharAbsent(s: string, from: char, to: char)
    requires from !in s
    ensures ReplaceChar(s, from, to) == s
  {
  }

  // ----- SplitOn -----

  /** A string without the separator is a single piece. */
  lemma {:induction false} SplitOnAbsent(s: string, c: char)
    requires c !in s
    ensures SplitOn(s, c) == [s]
  {
    if s != [] {
      assert c !in s[1..];
      SplitOnAbsent(s[1..], c);
      assert [s[0]] + s[1..] == s;
    }
  }

  /** Splitting `a`, a separator, then `b` gives the pieces of `a` followed by those of `b`. */
  lemma {:induction false} SplitOnAppend(a: string, b: string, c: char)
    ensures SplitOn(a + [c] + b, c) == SplitOn(a, c) + SplitOn(b, c)
  {
    if a == [] {
      assert a + [c] + b == [c] + b;
      assert ([c] + b)[1..] == b;
    } else {
      assert (a + [c] + b)[0] == a[0];
      assert (a + [c] + b)[1..] == a[1..] + [c] + b;
      SplitOnAppend(a[1..], b, c);
    }
  }

  /** Joining the pieces with the separator gives back the string. */
  lemma {:induction false} JoinSplitOn(s: string, c: char)
    ensures Join(SplitOn(s, c), [c]) == s
  {
    if s != [] {
      var rest := SplitOn(s[1..], c);
      JoinSplitOn(s[1..], c);
      if s[0] == c {
        assert ([""] + rest)[1..] == rest;
        assert [s[0]] + s[1..] == s;
      } else if |rest| == 1 {
        assert [s[0]] + s[1..] == s;
      } else {
        var r := [[s[0]] + rest[0]] + rest[1..];
        assert r[1..] == rest[1..];
        assert Join(r, [c]) == [s[0]] + (rest[0] + [c] + Join(rest[1..], [c]));
        assert [s[0]] + s[1..] == s;
      }
    }
  }

  /** Splitting the join of separator-free parts gives back the parts. */
  lemma {:induction false} SplitOnJoin(parts: seq<string>, c: char)
    requires |parts| >= 1
    requires forall i :: 0 <= i < |parts| ==> c !in parts[i]
    ensures SplitOn(Join(parts, [c]), c) == parts
  {
    SplitOnAbsent(parts[0], c);
    if |parts| > 1 {
      SplitOnJoin(parts[1..], c);
      SplitOnAppend(parts[0], Join(parts[1..], [c]), c);
      assert parts[0] + [c] + Join(parts[1..], [c]) == Join(parts, [c]);
      assert [parts[0]] + parts[1..] == parts;
    }
  }

  // ----- FilterNonEmpty -----

  /** Filtering distributes over concatenation. */
  lemma {:induction false} FilterNonEmptyAppend(a: seq<string>, b: seq<string>)
    ensures FilterNonEmpty(a + b) == FilterNonEmpty(a) + FilterNonEmpty(b)
  {
    if a != [] {
      assert (a + b)[0] == a[0];
      assert (a + b)[1..] == a[1..] + b;
      FilterNonEmptyAppend(a[1..], b);
    } else {
      assert a + b == b;
    }
  }

  /** Parts that are all non-empty pass the filter unchanged. */
  lemma {:induction false} FilterNonEmptyKeepsAll(parts: seq<string>)
    requires forall i :: 0 <= i < |parts| ==> parts[i] != ""
    ensures FilterNonEmpty(parts) == parts
  {
    if parts != [] {
      FilterNonEmptyKeepsAll(parts[1..]);
      assert [parts[0]] + parts[1..] == parts;
    }
  }

  // ----- Join -----

  /** Joining one more part adds the separator and that part at the end. */
  lemma {:induction false} JoinSnoc(parts: seq<string>, x: string, sep: string)
    requires |parts| >= 1
    ensures Join(parts + [x], sep) == Join(parts, sep) + sep + x
  {
    if |parts| > 1 {
      JoinSnoc(parts[1..], x, sep);
      assert (parts + [x])[1..] == parts[1..] + [x];
    } else {
      assert (parts + [x])[1..] == [x];
    }
  }

  /** A character in neither the parts nor the separator is not in their join. */
  lemma {:induction false} JoinAvoids(parts: seq<string>, sep: string, d: char)
    requires d !in sep
    requires forall i :: 0 <= i < |parts| ==> d !in parts[i]
    ensures d !in Join(parts, sep)
  {
    if |parts| > 1 {
      JoinAvoids(parts[1..], sep, d);
    }
  }

  /**
   * Splitting on `c` the join of `c`-free parts with the doubled separator
   * `cc` and dropping empty pieces gives back the non-empty parts.
   */
  lemma {:induction false} SplitOnJoinDoubled(parts: seq<string>, c: char)
    requires |parts| >= 1
    requires forall i :: 0 <= i < |parts| ==> c !in parts[i]
    ensures FilterNonEmpty(SplitOn(Join(parts, [c, c]), c)) == FilterNonEmpty(parts)
  {
    SplitOnAbsent(parts[0], c);
    if |parts| > 1 {
      var tail := Join(parts[1..], [c, c]);
      SplitOnJoinDoubled(parts[1..], c);
      assert Join(parts, [c, c]) == parts[0] + [c] + ([c] + tail);
      SplitOnAppend(parts[0], [c] + tail, c);
      assert ([c] + tail)[1..] == tail;
      assert SplitOn([c] + tail, c) == [""] + SplitOn(tail, c);
      FilterNonEmptyAppend([parts[0]], [""] + SplitOn(tail, c));
      FilterNonEmptyAppend([""], SplitOn(tail, c));
      assert FilterNonEmpty([""]) == [];
      FilterNonEmptyAppend([parts[0]], parts[1..]);
      assert [parts[0]] + parts[1..] == parts;
    }
  }
}
