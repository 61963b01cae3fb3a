/** Splitting text at a separator character (str.split) and joining parts
    with a separator (str.join), and how the two undo each other. */
module Texts {

  /** A nonempty sequence is its front followed by its last element. */
  lemma FrontLast<T>(s: seq<T>)
    requires s != []
    ensures s == s[..|s| - 1] + [s[|s| - 1]]
  {
  }

  /** The lengths of the parts, added up. */
  function TotalLength(parts: seq<string>): nat {
    if parts == [] then 0 else TotalLength(parts[..|parts| - 1]) + |parts[|parts| - 1]|
  }

  /** The parts of x + [y]: x before the last place, y at it. */
  lemma SnocParts<T>(x: seq<T>, y: T)
    ensures (x + [y])[..|x|] == x && (x + [y])[|x|] == y && |x + [y]| == |x| + 1
  {
  }

  /** sep.join(parts): the parts in order with one separator between
      neighbours, so nothing is added but the separators. */
  function Join(parts: seq<string>, sep: string): (r: string)
    ensures parts != [] ==> |r| == TotalLength(parts) + (|parts| - 1) * |sep|
    ensures parts == [] ==> r == ""
  {
    if parts == [] then ""
    else if |parts| == 1 then parts[0]
    else Join(parts[..|parts| - 1], sep) + sep + parts[|parts| - 1]
  }

  /** Joining one more part adds the separator and that part. */
  lemma JoinSnoc(parts: seq<string>, x: string, sep: string)
    requires parts != []
    ensures Join(parts + [x], sep) == Join(parts, sep) + sep + x
  {
    assert (parts + [x])[..|parts|] == parts;
  }

  /** Adding a character to the last part adds it to the end of the joined text. */
  lemma JoinExtendLast(front: seq<string>, last: string, c: char, sep: string)
    ensures Join(front + [last + [c]], sep) == Join(front + [last], sep) + [c]
  {
    if front != [] {
      JoinSnoc(front, last + [c], sep);
      JoinSnoc(front, last, sep);
    }
  }

  // ---------------------------------------------------------------------
  // str.split(sep)

  function Occurrences(s: string, c: char): nat {
    if s == [] then 0 else Occurrences(s[..|s| - 1], c) + (if s[|s| - 1] == c then 1 else 0)
  }

  /** The pieces of s between occurrences of sep (s.split(sep)); the empty
      string gives one empty piece. */
  function Split(s: string, sep: char): (r: seq<string>)
    ensures |r| >= 1
  {
    if s == [] then [""]
    else
      var init := Split(s[..|s| - 1], sep);
      var c := s[|s| - 1];
      if c == sep then init + [""]
      else init[..|init| - 1] + [init[|init| - 1] + [c]]
  }

  /** How the pieces change when one character is added at the end. */
  lemma SplitSnoc(s: string, c: char, sep: char)
    ensures Split(s + [c], sep) ==
      if c == sep then Split(s, sep) + [""]
      else Split(s, sep)[..|Split(s, sep)| - 1] + [Split(s, sep)[|Split(s, sep)| - 1] + [c]]
    ensures Occurrences(s + [c], sep) == Occurrences(s, sep) + (if c == sep then 1 else 0)
  {
    assert (s + [c])[..|s|] == s;
  }

  /** Splitting loses nothing: joining the pieces with the separator gives s
      back, and there is one piece more than there are separators. */
  lemma {:induction false} SplitJoin(s: string, sep: char)
    ensures Join(Split(s, sep), [sep]) == s
    ensures |Split(s, sep)| == Occurrences(s, sep) + 1
    decreases |s|
  {
    if s != [] {
      SplitJoin(s[..|s| - 1], sep);
      SplitJoinSnoc(s, sep);
    }
  }

  /** The inductive step of SplitJoin: from s without its last character to s. */
  lemma SplitJoinSnoc(s: string, sep: char)
    requires s != []
    requires Join(Split(s[..|s| - 1], sep), [sep]) == s[..|s| - 1]
    requires |Split(s[..|s| - 1], sep)| == Occurrences(s[..|s| - 1], sep) + 1
    ensures Join(Split(s, sep), [sep]) == s
    ensures |Split(s, sep)| == Occurrences(s, sep) + 1
  {
    var s', c := s[..|s| - 1], s[|s| - 1];
    FrontLast(s);
    SplitSnoc(s', c, sep);
    if c == sep {
      JoinSnoc(Split(s', sep), "", [sep]);
    } else {
      JoinCharStep(Split(s', sep), c, sep);
    }
  }

  /** Joining after a character other than the separator was added to the last piece. */
  lemma JoinCharStep(init: seq<string>, c: char, sep: char)
    requires init != []
    ensures Join(init[..|init| - 1] + [init[|init| - 1] + [c]], [sep]) == Join(init, [sep]) + [c]
  {
    var front, last := init[..|init| - 1], init[|init| - 1];
    FrontLast(init);
    JoinExtendLast(front, last, c, [sep]);
  }

  lemma {:induction false} SplitNoSeparator(s: string, sep: char)
    requires sep !in s
    ensures Split(s, sep) == [s]
    decreases |s|
  {
    if s != [] {
      var s' := s[..|s| - 1];
      SplitNoSeparator(s', sep);
      assert s == s' + [s[|s| - 1]];
      SplitSnoc(s', s[|s| - 1], sep);
    }
  }

  lemma {:induction false} SplitAfterSeparator(a: string, b: string, sep: char)
    requires sep !in b
    ensures Split(a + [sep] + b, sep) == Split(a, sep) + [b]
    decreases |b|
  {
    if b == [] {
      assert a + [sep] + b == a + [sep];
      SplitSnoc(a, sep, sep);
    } else {
      var b' := b[..|b| - 1];
      var c := b[|b| - 1];
      SplitAfterSeparator(a, b', sep);
      assert c in b;
      SplitExtendLast(a + [sep] + b', Split(a, sep), b', c, sep);
      assert a + [sep] + b == (a + [sep] + b') + [c];
      assert b == b' + [c];
    }
  }

  /** A character other than the separator extends the last piece. */
  lemma SplitExtendLast(x: string, front: seq<string>, last: string, c: char, sep: char)
    requires Split(x, sep) == front + [last] && c != sep
    ensures Split(x + [c], sep) == front + [last + [c]]
  {
    SplitSnoc(x, c, sep);
    SnocParts(front, last);
  }

  /** Splitting undoes joining when no part contains the separator. */
  lemma {:induction false} JoinSplit(parts: seq<string>, sep: char)
    requires parts != []
    requires forall k :: 0 <= k < |parts| ==> sep !in parts[k]
    ensures Split(Join(parts, [sep]), sep) == parts
    decreases |parts|
  {
    if |parts| == 1 {
      SplitNoSeparator(parts[0], sep);
    } else {
      var front, last := parts[..|parts| - 1], parts[|parts| - 1];
      JoinSplit(front, sep);
      SplitAfterSeparator(Join(front, [sep]), last, sep);
      FrontLast(parts);
    }
  }
}
