/** The string operations of JavaScript that the loaders use, on `seq<char>`. */
module Strings {

  /** `s.startsWith(p)` */
  predicate StartsWith(s: string, p: string)
  {
    |p| <= |s| && s[..|p|] == p
  }

  /** `s.endsWith(p)` */
  predicate EndsWith(s: string, p: string)
  {
    |p| <= |s| && s[|s| - |p|..] == p
  }

  /** The characters that the regular-expression `.` does not match (ECMAScript line terminators). */
  predicate IsLineTerminator(c: char)
  {
    c == '\n' || c == '\r' || c == '\U{2028}' || c == '\U{2029}'
  }

  /** No line terminator among `s[lo..hi]`. */
  predicate NoLineTerminatorIn(s: string, lo: nat, hi: nat)
    requires lo <= hi <= |s|
  {
    forall j :: lo <= j < hi ==> !IsLineTerminator(s[j])
  }

  /** Case folding of ASCII letters, the only folding the image-extension pattern can observe. */
  function LowerAscii(c: char): char
  {
    if 'A' <= c <= 'Z' then (c as int + 32) as char else c
  }

  /** Comparison under the `i` flag of a regular expression, restricted to ASCII letters. */
  predicate EqualsIgnoreCase(a: string, b: string)
  {
    |a| == |b| && forall j :: 0 <= j < |a| ==> LowerAscii(a[j]) == LowerAscii(b[j])
  }

  /** The inverse of `Split`: the parts with one separator between each two. */
  function Join(parts: seq<string>, sep: char): string
    requires |parts| >= 1
  {
    if |parts| == 1 then parts[0] else parts[0] + [sep] + Join(parts[1..], sep)
  }

  /** `s.split(sep)` for a one-character separator: the maximal separator-free runs, in order. */
  function Split(s: string, sep: char): (parts: seq<string>)
    ensures |parts| >= 1
    decreases |s|
  {
    if |s| == 0 then [""]
    else
      var rest := Split(s[1..], sep);
      if s[0] == sep then [""] + rest
      else [[s[0]] + rest[0]] + rest[1..]
  }

  /** Joining the parts with the separator gives back the text. */
  lemma {:induction false} SplitJoin(s: string, sep: char)
    ensures Join(Split(s, sep), sep) == s
  {
    if |s| > 0 {
      var t := s[1..];
      SplitJoin(t, sep);
      var rest := Split(t, sep);
      assert s == [s[0]] + t;
      if s[0] != sep {
        var parts := [[s[0]] + rest[0]] + rest[1..];
        assert parts[1..] == rest[1..];
      }
    }
  }

  /** A separator-free string splits into itself alone. */
  lemma {:induction false} SplitNoSeparator(a: string, sep: char)
    requires sep !in a
    ensures Split(a, sep) == [a]
  {
    if |a| > 0 {
      SplitNoSeparator(a[1..], sep);
      assert a == [a[0]] + a[1..];
    }
  }

  /** Splitting at the first separator: the text before it is the first part. */
  lemma {:induction false} SplitAtSeparator(a: string, b: string, sep: char)
    requires sep !in a
    ensures Split(a + [sep] + b, sep) == [a] + Split(b, sep)
  {
    var s := a + [sep] + b;
    if |a| == 0 {
      assert s[1..] == b;
    } else {
      assert s[1..] == a[1..] + [sep] + b;
      SplitAtSeparator(a[1..], b, sep);
      assert a == [a[0]] + a[1..];
    }
  }

  /** Splitting the join of separator-free parts gives back the parts. */
  lemma {:induction false} JoinSplit(parts: seq<string>, sep: char)
    requires |parts| >= 1 && forall j :: 0 <= j < |parts| ==> sep !in parts[j]
    ensures Split(Join(parts, sep), sep) == parts
  {
    if |parts| == 1 {
      SplitNoSeparator(parts[0], sep);
    } else {
      JoinSplit(parts[1..], sep);
      SplitAtSeparator(parts[0], Join(parts[1..], sep), sep);
    }
  }

  /** No part of a split holds the separator. */
  lemma {:induction false} SplitPartsSeparatorFree(s: string, sep: char)
    ensures forall j :: 0 <= j < |Split(s, sep)| ==> sep !in Split(s, sep)[j]
  {
    if |s| > 0 {
      SplitPartsSeparatorFree(s[1..], sep);
      var rest := Split(s[1..], sep);
      if s[0] != sep {
        var parts := [[s[0]] + rest[0]] + rest[1..];
        assert forall j :: 1 <= j < |parts| ==> parts[j] == rest[j];
      }
    }
  }

  /** `s.split(sep)[0]` */
  function SplitFirst(s: string, sep: char): string
  {
    Split(s, sep)[0]
  }

  /** `s.split(sep).pop()` */
  function SplitLast(s: string, sep: char): string
  {
    var parts := Split(s, sep);
    parts[|parts| - 1]
  }

  /** The first part is the longest separator-free prefix of `s`. */
  lemma {:induction false} FirstPart(s: string, sep: char)
    ensures StartsWith(s, SplitFirst(s, sep)) && sep !in SplitFirst(s, sep)
    ensures |SplitFirst(s, sep)| == |s| || s[|SplitFirst(s, sep)|] == sep
  {
    if |s| > 0 && s[0] != sep {
      FirstPart(s[1..], sep);
    }
  }

  /** The last part is the longest separator-free suffix of `s`. */
  lemma {:induction false} LastPart(s: string, sep: char)
    ensures EndsWith(s, SplitLast(s, sep)) && sep !in SplitLast(s, sep)
    ensures |SplitLast(s, sep)| == |s| || s[|s| - |SplitLast(s, sep)| - 1] == sep
  {
    if |s| > 0 {
      LastPart(s[1..], sep);
      if s[0] != sep && |Split(s[1..], sep)| == 1 {
        LastOfGluedSplit(s, sep);
      } else {
        LastOfSplitTail(s, sep);
        var rest := Split(s[1..], sep);
        if |rest| > 1 {
          SplitJoin(s[1..], sep);
          JoinLongerThanLast(rest, sep);
        }
        SuffixOfTail(s, SplitLast(s[1..], sep), sep);
      }
    }
  }

  /** A suffix of `s` is the text up to `e` followed by the text from `e`. */
  lemma SuffixAt(s: string, i: nat, e: nat, a: string, b: string)
    requires i <= e <= |s| && s[i..e] == a && s[e..] == b
    ensures s[i..] == a + b
  {
    assert s[i..] == s[i..e] + s[e..];
  }

  /** A suffix of the tail that is preceded by a separator there, or by a leading separator. */
  lemma SuffixOfTail(s: string, l: string, sep: char)
    requires |s| > 0 && EndsWith(s[1..], l)
    requires (|l| < |s| - 1 && s[1..][|s| - 1 - |l| - 1] == sep) || (|l| == |s| - 1 && s[0] == sep)
    ensures EndsWith(s, l) && s[|s| - |l| - 1] == sep
  {
    assert s[|s| - |l|..] == s[1..][|s| - 1 - |l|..];
  }

  /** When the first character is glued to a single remaining part, the text is one part. */
  lemma LastOfGluedSplit(s: string, sep: char)
    requires |s| > 0 && s[0] != sep && |Split(s[1..], sep)| == 1 && sep !in Split(s[1..], sep)[0]
    ensures SplitLast(s, sep) == s && sep !in s
  {
    var t := s[1..];
    SplitJoin(t, sep);
    assert Split(t, sep) == [t];
    assert s == [s[0]] + t;
  }

  /** With two or more parts, the joined text is longer than its last part. */
  lemma {:induction false} JoinLongerThanLast(parts: seq<string>, sep: char)
    requires |parts| >= 2
    ensures |Join(parts, sep)| > |parts[|parts| - 1]|
  {
    if |parts| > 2 {
      JoinLongerThanLast(parts[1..], sep);
    }
  }

  /** Unless the first character is glued to a single remaining part, the last part is the tail's. */
  lemma LastOfSplitTail(s: string, sep: char)
    requires |s| > 0 && (s[0] == sep || |Split(s[1..], sep)| > 1)
    ensures SplitLast(s, sep) == SplitLast(s[1..], sep)
  {
  }
}
