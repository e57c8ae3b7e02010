/**
 Joining text fields with a one-character separator and splitting them again,
 as Python's `sep.join(parts)` and `s.split(sep)` do.
 */
module Text {

  /** `sep.join(parts)`: the parts in order with one separator between neighbours. */
  function Join(parts: seq<string>, sep: char): (s: string)
    ensures |parts| == 1 ==> s == parts[0]
    ensures 1 <= |parts| ==> parts[0] <= s
    decreases |parts|
  {
    if |parts| == 0 then ""
    else if |parts| == 1 then parts[0]
    else parts[0] + [sep] + Join(parts[1..], sep)
  }

  /** Position of the first occurrence of `c` in `s`. */
  function IndexOf(s: string, c: char): (i: nat)
    requires c in s
    ensures i < |s| && s[i] == c && c !in s[..i]
  {
    if s[0] == c then 0 else 1 + IndexOf(s[1..], c)
  }

  /**
   `s.split(sep)`: the maximal separator-free pieces of `s`, in order; the
   empty string splits into one empty piece.
   */
  function Split(s: string, sep: char): (parts: seq<string>)
    ensures 1 <= |parts|
    ensures forall k :: 0 <= k < |parts| ==> sep !in parts[k]
    decreases |s|
  {
    if sep !in s then [s]
    else
      var i := IndexOf(s, sep);
      [s[..i]] + Split(s[i + 1..], sep)
  }

  /** Splitting a joined list gives the list back when no part contains the separator. */
  lemma {:induction false} SplitJoin(parts: seq<string>, sep: char)
    requires 1 <= |parts|
    requires forall k :: 0 <= k < |parts| ==> sep !in parts[k]
    ensures Split(Join(parts, sep), sep) == parts
    decreases |parts|
  {
    if |parts| > 1 {
      var head := parts[0];
      var rest := Join(parts[1..], sep);
      var s := head + [sep] + rest;
      assert sep !in head;
      IndexOfAfter(head, sep, rest);
      assert s[..|head|] == head;
      assert s[|head| + 1..] == rest;
      assert Split(s, sep) == [head] + Split(rest, sep);
      SplitJoin(parts[1..], sep);
      assert parts == [head] + parts[1..];
    }
  }

  lemma {:induction false} IndexOfAfter(x: string, c: char, rest: string)
    requires c !in x
    ensures IndexOf(x + [c] + rest, c) == |x|
    decreases |x|
  {
    var s := x + [c] + rest;
    if 0 < |x| {
      assert s[1..] == x[1..] + [c] + rest;
      IndexOfAfter(x[1..], c, rest);
    }
  }

  /** Joining the pieces of a split gives the original string back. */
  lemma {:induction false} JoinSplit(s: string, sep: char)
    ensures Join(Split(s, sep), sep) == s
    decreases |s|
  {
    if sep in s {
      var i := IndexOf(s, sep);
      var tail := Split(s[i + 1..], sep);
      var parts := [s[..i]] + tail;
      assert Split(s, sep) == parts;
      assert parts[1..] == tail;
      assert Join(parts, sep) == s[..i] + [sep] + Join(tail, sep);
      JoinSplit(s[i + 1..], sep);
      assert s == s[..i] + [sep] + s[i + 1..];
    }
  }
}
