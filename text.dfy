/** The string operations the extraction step relies on: Python's
    `str.split(sep)` with a one-character separator, `sep.join(parts)`, the
    part before the first separator (`s.split(sep)[0]`), and the ordering
    `sorted` uses on strings (by code point, a proper prefix first). */
module Text {

  /** `s.split(sep)`: the maximal runs between separators, in order. */
  function Split(s: string, sep: char): (parts: seq<string>)
    ensures |parts| >= 1
    ensures forall i :: 0 <= i < |parts| ==> sep !in parts[i]
  {
    if s == [] then [""]
    else
      var rest := Split(s[1..], sep);
      if s[0] == sep then [""] + rest
      else [[s[0]] + rest[0]] + rest[1..]
  }

  /** `sep.join(parts)`: the first part, then each further part after a
      separator. */
  function Join(parts: seq<string>, sep: char): (s: string)
    ensures parts != [] ==> parts[0] <= s
    ensures |parts| > 1 ==> |parts[0]| < |s| && s[|parts[0]|] == sep
    ensures |s| >= |parts| - 1
  {
    if parts == [] then ""
    else if |parts| == 1 then parts[0]
    else parts[0] + [sep] + Join(parts[1..], sep)
  }

  /** Joining the parts of a split gives back the string. */
  lemma {:induction false} JoinSplit(s: string, sep: char)
    ensures Join(Split(s, sep), sep) == s
  {
    if s != [] {
      var rest := Split(s[1..], sep);
      JoinSplit(s[1..], sep);
      if s[0] == sep {
        assert Split(s, sep)[1..] == rest;
      } else if |rest| == 1 {
        assert Split(s, sep) == [[s[0]] + rest[0]];
      } else {
        var parts := Split(s, sep);
        assert parts[1..] == rest[1..];
        assert Join(rest, sep) == rest[0] + [sep] + Join(rest[1..], sep);
        assert s == [s[0]] + s[1..];
      }
    }
  }

  /** Splitting a join of separator-free parts gives back the parts. */
  lemma {:induction false} SplitJoin(parts: seq<string>, sep: char)
    requires |parts| >= 1
    requires forall i :: 0 <= i < |parts| ==> sep !in parts[i]
    ensures Split(Join(parts, sep), sep) == parts
  {
    if |parts| == 1 {
      SplitFree(parts[0], sep);
    } else {
      SplitJoin(parts[1..], sep);
      SplitAfter(parts[0], Join(parts[1..], sep), sep);
      assert parts == [parts[0]] + parts[1..];
    }
  }

  /** A string without the separator splits into itself. */
  lemma {:induction false} SplitFree(s: string, sep: char)
    requires sep !in s
    ensures Split(s, sep) == [s]
  {
    if s != [] {
      SplitFree(s[1..], sep);
      assert s == [s[0]] + s[1..];
    }
  }

  /** A separator-free head followed by a separator splits off as the first part. */
  lemma {:induction false} SplitAfter(head: string, tail: string, sep: char)
    requires sep !in head
    ensures Split(head + [sep] + tail, sep) == [head] + Split(tail, sep)
  {
    if head == [] {
      assert head + [sep] + tail == [sep] + tail;
      assert ([sep] + tail)[1..] == tail;
    } else {
      SplitAfter(head[1..], tail, sep);
      var s := head + [sep] + tail;
      assert s[0] == head[0];
      assert s[1..] == head[1..] + [sep] + tail;
      assert head == [head[0]] + head[1..];
    }
  }

  /** Joining the first `k` parts gives a prefix of joining them all. */
  lemma {:induction false} JoinPrefix(parts: seq<string>, sep: char, k: nat)
    requires 1 <= k <= |parts|
    ensures Join(parts[..k], sep) <= Join(parts, sep)
  {
    if k == |parts| {
      assert parts[..k] == parts;
    } else if k == 1 {
      assert parts[..1] == [parts[0]];
      assert Join(parts, sep) == parts[0] + ([sep] + Join(parts[1..], sep));
    } else {
      JoinPrefix(parts[1..], sep, k - 1);
      assert parts[..k][1..] == parts[1..][..k - 1];
      var a, b := Join(parts[1..][..k - 1], sep), Join(parts[1..], sep);
      assert Join(parts[..k], sep) == parts[0] + [sep] + a;
      assert Join(parts, sep) == parts[0] + [sep] + b;
      assert b == a + b[|a|..];
      assert Join(parts, sep) == (parts[0] + [sep] + a) + b[|a|..];
    }
  }

  /** `s.split(sep)[0]`: everything before the first separator. */
  function Head(s: string, sep: char): (h: string)
    ensures h <= s && sep !in h
    ensures |h| < |s| ==> s[|h|] == sep
  {
    var parts := Split(s, sep);
    JoinSplit(s, sep);
    JoinPrefix(parts, sep, 1);
    assert parts[..1] == [parts[0]];
    HeadFollowedBySep(s, sep);
    parts[0]
  }

  lemma {:induction false} HeadFollowedBySep(s: string, sep: char)
    ensures |Split(s, sep)[0]| < |s| ==> s[|Split(s, sep)[0]|] == sep
  {
    if s != [] && s[0] != sep {
      HeadFollowedBySep(s[1..], sep);
    }
  }

  /** Python's `a < b` on strings: the first differing code point decides,
      and a proper prefix comes first. */
  predicate Less(a: string, b: string): (lt: bool)
    ensures a < b ==> lt
    ensures b <= a ==> !lt
    ensures lt && a != [] ==> b != [] && a[0] <= b[0]
  {
    if b == [] then false
    else if a == [] then true
    else if a[0] != b[0] then a[0] < b[0]
    else Less(a[1..], b[1..])
  }

  lemma {:induction false} LessIrreflexive(a: string)
    ensures !Less(a, a)
  {
    if a != [] {
      LessIrreflexive(a[1..]);
    }
  }

  lemma {:induction false} LessTransitive(a: string, b: string, c: string)
    requires Less(a, b) && Less(b, c)
    ensures Less(a, c)
  {
    if a != [] && a[0] == b[0] && b[0] == c[0] {
      LessTransitive(a[1..], b[1..], c[1..]);
    }
  }

  lemma {:induction false} LessTotal(a: string, b: string)
    ensures a == b || Less(a, b) || Less(b, a)
  {
    if a != [] && b != [] && a[0] == b[0] {
      LessTotal(a[1..], b[1..]);
      if a[1..] == b[1..] {
        assert a == [a[0]] + a[1..] && b == [b[0]] + b[1..];
      }
    }
  }
}
