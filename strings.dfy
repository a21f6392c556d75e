/**
 * strings.Split and strings.Join with "/" as the separator, as main.go uses
 * them to take the directory index off the front of a request path.
 */
module Strings {

  /** strings.Split(s, "/"): the pieces between separators; never empty. */
  function Split(s: string): (pieces: seq<string>)
    ensures |pieces| > 0
    ensures forall k :: 0 <= k < |pieces| ==> '/' !in pieces[k]
    ensures |pieces| > 1 <==> '/' in s
  {
    if s == [] then [""]
    else if s[0] == '/' then [""] + Split(s[1..])
    else
      var rest := Split(s[1..]);
      [[s[0]] + rest[0]] + rest[1..]
  }

  /** strings.Join(pieces, "/"): the pieces in order, with '/' between neighbours. */
  function Join(pieces: seq<string>): (s: string)
    ensures |pieces| > 0 ==> pieces[0] <= s
    ensures |pieces| > 1 ==> |pieces[0]| < |s| && s[|pieces[0]|] == '/'
  {
    if pieces == [] then ""
    else if |pieces| == 1 then pieces[0]
    else pieces[0] + "/" + Join(pieces[1..])
  }

  /** Joining the pieces of a split gives back the original string. */
  lemma {:induction false} JoinSplit(s: string)
    ensures Join(Split(s)) == s
  {
    if s == [] {
    } else if s[0] == '/' {
      JoinSplit(s[1..]);
      assert s == "/" + s[1..];
    } else {
      var rest := Split(s[1..]);
      JoinSplit(s[1..]);
      if |rest| > 1 {
        assert ([[s[0]] + rest[0]] + rest[1..])[1..] == rest[1..];
      }
      assert s == [s[0]] + s[1..];
    }
  }

  /** A string without a separator splits into itself alone. */
  lemma {:induction false} SplitSegment(a: string)
    requires '/' !in a
    ensures Split(a) == [a]
  {
    if a != [] {
      SplitSegment(a[1..]);
      assert a == [a[0]] + a[1..];
    }
  }

  /** A leading separator-free piece followed by "/" is split off as the first piece. */
  lemma {:induction false} SplitAfterSegment(a: string, b: string)
    requires '/' !in a
    ensures Split(a + "/" + b) == [a] + Split(b)
  {
    var s := a + "/" + b;
    if a == [] {
      assert s[1..] == b;
    } else {
      assert s[1..] == a[1..] + "/" + b;
      SplitAfterSegment(a[1..], b);
      assert [a[0]] + a[1..] == a;
    }
  }

  /** Splitting a join of separator-free pieces gives the pieces back. */
  lemma {:induction false} SplitJoin(pieces: seq<string>)
    requires |pieces| > 0
    requires forall k :: 0 <= k < |pieces| ==> '/' !in pieces[k]
    ensures Split(Join(pieces)) == pieces
  {
    if |pieces| == 1 {
      SplitSegment(pieces[0]);
    } else {
      SplitAfterSegment(pieces[0], Join(pieces[1..]));
      SplitJoin(pieces[1..]);
    }
  }
}
