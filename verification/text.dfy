/**
 * The .NET string primitives the logger relies on: `string.IsNullOrWhiteSpace`,
 * `string.IsNullOrEmpty`, case-insensitive comparison (approximated by ASCII
 * folding) and `string.Split(char)`, which keeps empty segments.
 */
module Text {
  import opened Wrappers

  /** A C# `string` reference, which may be null. */
  type NString = Option<string>

  /** `Char.IsWhiteSpace`: U+0009..U+000D, U+0020, U+0085, U+00A0 and the Unicode space separators. */
  predicate IsWhiteSpace(c: char) {
    var n := c as int;
    n == 0x20 || 0x09 <= n <= 0x0D || n == 0x85 || n == 0xA0 || n == 0x1680
    || 0x2000 <= n <= 0x200A || n == 0x2028 || n == 0x2029 || n == 0x202F
    || n == 0x205F || n == 0x3000
  }

  /** `string.IsNullOrWhiteSpace`. */
  predicate IsNullOrWhiteSpace(s: NString) {
    s.None? || forall i :: 0 <= i < |s.value| ==> IsWhiteSpace(s.value[i])
  }

  /** `string.IsNullOrEmpty`. */
  predicate IsNullOrEmpty(s: NString) {
    s.None? || s.value == ""
  }

  function FoldChar(c: char): char {
    if 'A' <= c <= 'Z' then (c as int + 32) as char else c
  }

  /** The case folding under which two names compare equal ignoring case. */
  function Fold(s: string): (r: string)
    ensures |r| == |s|
  {
    if s == "" then "" else [FoldChar(s[0])] + Fold(s[1..])
  }

  /** Folding is a projection: folding twice is folding once. */
  lemma {:induction false} FoldIdempotent(s: string)
    ensures Fold(Fold(s)) == Fold(s)
  {
    if s != "" {
      FoldIdempotent(s[1..]);
      assert Fold(s)[1..] == Fold(s[1..]);
    }
  }

  /** Names that differ in length never compare equal ignoring case. */
  lemma FoldLengthDistinct(a: string, b: string)
    requires |a| != |b|
    ensures Fold(a) != Fold(b)
  {
  }

  /** `s.Split(sep)`: the segments between separators, empty ones included. */
  function Split(s: string, sep: char): (parts: seq<string>)
    ensures |parts| >= 1
  {
    if s == "" then [""]
    else
      var rest := Split(s[1..], sep);
      if s[0] == sep then [""] + rest
      else [[s[0]] + rest[0]] + rest[1..]
  }

  /** `string.Join(sep, parts)`. */
  function Join(parts: seq<string>, sep: char): string
    requires |parts| >= 1
  {
    if |parts| == 1 then parts[0] else parts[0] + [sep] + Join(parts[1..], sep)
  }

  /** Joining one more segment puts it behind a separator. */
  lemma {:induction false} JoinAppend(parts: seq<string>, last: string, sep: char)
    requires |parts| >= 1
    ensures Join(parts + [last], sep) == Join(parts, sep) + [sep] + last
  {
    if |parts| == 1 {
      assert (parts + [last])[1..] == [last];
    } else {
      assert (parts + [last])[1..] == parts[1..] + [last];
      JoinAppend(parts[1..], last, sep);
    }
  }

  /** Split yields one segment more than there are separators. */
  lemma {:induction false} SplitLength(s: string, sep: char)
    ensures |Split(s, sep)| == multiset(s)[sep] + 1
  {
    if s != "" {
      SplitLength(s[1..], sep);
      assert s == [s[0]] + s[1..];
      assert multiset(s) == multiset{s[0]} + multiset(s[1..]);
    }
  }

  /** No segment contains the separator. */
  lemma {:induction false} SplitSegmentsFree(s: string, sep: char)
    ensures forall i :: 0 <= i < |Split(s, sep)| ==> sep !in Split(s, sep)[i]
  {
    if s != "" {
      SplitSegmentsFree(s[1..], sep);
    }
  }

  /** Joining the segments with the separator gives the string back. */
  lemma {:induction false} JoinSplit(s: string, sep: char)
    ensures Join(Split(s, sep), sep) == s
  {
    if s != "" {
      var rest := Split(s[1..], sep);
      JoinSplit(s[1..], sep);
      if s[0] == sep {
        assert Split(s, sep)[1..] == rest;
      } else if |rest| == 1 {
        assert Join(Split(s, sep), sep) == [s[0]] + rest[0];
      } else {
        var parts := Split(s, sep);
        assert parts[1..] == rest[1..];
        assert Join(rest, sep) == rest[0] + [sep] + Join(rest[1..], sep);
        assert s == [s[0]] + s[1..];
      }
    }
  }

  lemma {:induction false} SplitPrefix(a: string, b: string, sep: char)
    requires sep !in a
    ensures Split(a + b, sep) == [a + Split(b, sep)[0]] + Split(b, sep)[1..]
  {
    if a != "" {
      SplitPrefix(a[1..], b, sep);
      assert (a + b)[0] == a[0];
      assert (a + b)[1..] == a[1..] + b;
      assert [a[0]] + (a[1..] + Split(b, sep)[0]) == a + Split(b, sep)[0];
    } else {
      var parts := Split(b, sep);
      assert a + b == b;
      assert a + parts[0] == parts[0];
      assert parts == [parts[0]] + parts[1..];
    }
  }

  /** Splitting a joined list of separator-free segments gives the segments back. */
  lemma {:induction false} SplitJoin(parts: seq<string>, sep: char)
    requires |parts| >= 1
    requires forall i :: 0 <= i < |parts| ==> sep !in parts[i]
    ensures Split(Join(parts, sep), sep) == parts
  {
    if |parts| == 1 {
      SplitPrefix(parts[0], "", sep);
      assert parts[0] + "" == parts[0];
    } else {
      var tail := Join(parts[1..], sep);
      SplitJoin(parts[1..], sep);
      SplitPrefix(parts[0], [sep] + tail, sep);
      assert parts[0] + [sep] + tail == parts[0] + ([sep] + tail);
      assert ([sep] + tail)[1..] == tail;
      assert Split([sep] + tail, sep) == [""] + Split(tail, sep);
      assert Split([sep] + tail, sep)[0] == "";
      assert Split([sep] + tail, sep)[1..] == parts[1..];
      assert parts[0] + "" == parts[0];
      assert parts == [parts[0]] + parts[1..];
    }
  }
}
