/** Joining strings with a separator character and splitting them apart again. */
module QueryStrings {

  /**
   * The parts with `sep` between each neighbouring pair. Separator-free parts
   * contribute one separator fewer than there are parts, and the result is
   * empty only for no parts or a single empty part.
   */
  function Join(parts: seq<string>, sep: char): (joined: string)
    ensures (forall i | 0 <= i < |parts| :: sep !in parts[i]) ==>
      Occurrences(sep, joined) == if parts == [] then 0 else |parts| - 1
    ensures joined == [] <==> parts == [] || (|parts| == 1 && parts[0] == [])
  {
    if |parts| == 0 then ""
    else if |parts| == 1 then
      OccurrencesAbsent(sep, parts[0]);
      parts[0]
    else
      var rest := Join(parts[1..], sep);
      OccurrencesAbsent(sep, parts[0]);
      OccurrencesAppend(sep, parts[0], [sep]);
      OccurrencesAppend(sep, parts[0] + [sep], rest);
      parts[0] + [sep] + rest
  }

  /**
   * The maximal runs of `s` between separators; the empty string is one empty
   * part. Joining the parts again gives back `s`.
   */
  function Split(s: string, sep: char): (parts: seq<string>)
    ensures |parts| >= 1
    ensures Join(parts, sep) == s
    ensures forall i | 0 <= i < |parts| :: sep !in parts[i]
    decreases |s|
  {
    if s == [] then [[]]
    else
      var rest := Split(s[1..], sep);
      if s[0] == sep then
        assert s == [sep] + s[1..];
        [[]] + rest
      else
        var parts := [[s[0]] + rest[0]] + rest[1..];
        assert s == [s[0]] + s[1..];
        assert |rest| >= 2 ==> Join(rest, sep) == rest[0] + [sep] + Join(rest[1..], sep);
        assert |rest| >= 2 ==> Join(parts, sep) == [s[0]] + rest[0] + [sep] + Join(rest[1..], sep) by {
          if |rest| >= 2 { assert parts[1..] == rest[1..]; }
        }
        assert forall i | 1 <= i < |parts| :: parts[i] == rest[i];
        parts
  }

  /** How often `c` occurs in `s`. */
  function Occurrences(c: char, s: string): nat {
    if s == [] then 0 else (if s[0] == c then 1 else 0) + Occurrences(c, s[1..])
  }

  lemma {:induction false} OccurrencesAppend(c: char, a: string, b: string)
    ensures Occurrences(c, a + b) == Occurrences(c, a) + Occurrences(c, b)
  {
    if a == [] {
      assert a + b == b;
    } else {
      assert (a + b)[1..] == a[1..] + b;
      OccurrencesAppend(c, a[1..], b);
    }
  }

  lemma {:induction false} OccurrencesAbsent(c: char, s: string)
    ensures c !in s <==> Occurrences(c, s) == 0
  {
    if s != [] {
      assert s == [s[0]] + s[1..];
      OccurrencesAbsent(c, s[1..]);
    }
  }

  /** A string falls into one more part than it has separators. */
  lemma {:induction false} SplitCountsSeparators(s: string, sep: char)
    ensures |Split(s, sep)| == Occurrences(sep, s) + 1
    decreases |s|
  {
    if s != [] {
      SplitCountsSeparators(s[1..], sep);
    }
  }

  lemma {:induction false} SplitFree(x: string, y: string, sep: char)
    requires sep !in x
    ensures Split(x + y, sep) == [x + Split(y, sep)[0]] + Split(y, sep)[1..]
    decreases |x|
  {
    if x != [] {
      assert (x + y)[0] == x[0] && (x + y)[1..] == x[1..] + y;
      SplitFree(x[1..], y, sep);
      assert [x[0]] + (x[1..] + Split(y, sep)[0]) == x + Split(y, sep)[0];
    } else {
      var parts := Split(y, sep);
      assert x + y == y && x + parts[0] == parts[0];
      assert parts == [parts[0]] + parts[1..];
    }
  }

  /** Splitting a join of separator-free parts recovers the parts. */
  lemma {:induction false} SplitJoin(parts: seq<string>, sep: char)
    requires |parts| >= 1
    requires forall i | 0 <= i < |parts| :: sep !in parts[i]
    ensures Split(Join(parts, sep), sep) == parts
  {
    if |parts| == 1 {
      SplitFree(parts[0], [], sep);
      assert parts[0] + [] == parts[0];
    } else {
      var tail := Join(parts[1..], sep);
      SplitJoin(parts[1..], sep);
      assert parts[0] + [sep] + tail == parts[0] + ([sep] + tail);
      SplitFree(parts[0], [sep] + tail, sep);
      assert ([sep] + tail)[1..] == tail;
      assert parts[0] + [] == parts[0];
      assert parts == [parts[0]] + parts[1..];
    }
  }
}
