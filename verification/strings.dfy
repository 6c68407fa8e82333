/** Splitting text on a one-character separator, with the behaviour of
    Go's `strings.Split` for a non-empty separator: the text is cut at
    EVERY occurrence of the separator, so `n` separators give `n + 1`
    parts, and the empty text gives one empty part. */
module Strings {

  /** The number of occurrences of `c` in `s`. */
  function Count(s: string, c: char): nat
  {
    if |s| == 0 then 0 else (if s[0] == c then 1 else 0) + Count(s[1..], c)
  }

  /** The position of the first occurrence of `c` in `s`. */
  function FirstIndex(s: string, c: char): (i: nat)
    requires c in s
    ensures i < |s| && s[i] == c
    ensures c !in s[..i]
  {
    if s[0] == c then 0
    else
      assert c in s[1..] by {
        var k :| 0 <= k < |s| && s[k] == c;
        assert s[1..][k - 1] == c;
      }
      var j := FirstIndex(s[1..], c);
      assert s[..1 + j] == [s[0]] + s[1..][..j];
      1 + j
  }

  /** The parts of `s` between occurrences of `sep`, in order. */
  function Split(s: string, sep: char): (parts: seq<string>)
    decreases |s|
    ensures |parts| >= 1
    ensures |parts| == Count(s, sep) + 1
    ensures forall k :: 0 <= k < |parts| ==> sep !in parts[k]
    ensures |parts| == 1 <==> sep !in s
    ensures parts[0] <= s && (|parts[0]| < |s| ==> s[|parts[0]|] == sep)
  {
    if sep !in s then
      CountAbsent(s, sep);
      [s]
    else
      var i := FirstIndex(s, sep);
      CountSplit(s, sep, i);
      [s[..i]] + Split(s[i + 1..], sep)
  }

  /** Concatenates `parts`, putting `sep` between consecutive parts. */
  function Join(parts: seq<string>, sep: char): string
  {
    if |parts| == 0 then ""
    else if |parts| == 1 then parts[0]
    else parts[0] + [sep] + Join(parts[1..], sep)
  }

  lemma {:induction false} CountAbsent(s: string, c: char)
    requires c !in s
    ensures Count(s, c) == 0
    decreases |s|
  {
    if |s| > 0 {
      assert c !in s[1..] by {
        forall k | 0 <= k < |s[1..]| ensures s[1..][k] != c {
          assert s[1..][k] == s[k + 1];
        }
      }
      CountAbsent(s[1..], c);
    }
  }

  /** Cutting `s` at the first separator, at position `i`, leaves one
      separator fewer in what follows it. */
  lemma {:induction false} CountSplit(s: string, c: char, i: nat)
    requires i < |s| && s[i] == c && c !in s[..i]
    ensures Count(s, c) == 1 + Count(s[i + 1..], c)
    decreases i
  {
    if i > 0 {
      assert s[0] == s[..i][0];
      assert s[1..][..i - 1] == s[1..i];
      assert c !in s[1..][..i - 1] by {
        forall k | 0 <= k < i - 1 ensures s[1..i][k] != c {
          assert s[1..i][k] == s[..i][k + 1];
        }
      }
      CountSplit(s[1..], c, i - 1);
      assert s[1..][i - 1 + 1..] == s[i + 1..];
    }
  }

  /** Joining the parts of a split gives back the original text. */
  lemma {:induction false} JoinSplit(s: string, sep: char)
    ensures Join(Split(s, sep), sep) == s
    decreases |s|
  {
    if sep in s {
      var i := FirstIndex(s, sep);
      var tail := s[i + 1..];
      var rest := Split(tail, sep);
      SplitUnfold(s, sep);
      JoinSplit(tail, sep);
      JoinCons(s[..i], rest, sep);
      CutAround(s, i);
    }
  }

  /** A text is the part before position `i`, the character there, and the
      part after it. */
  lemma CutAround(s: string, i: nat)
    requires i < |s|
    ensures s == s[..i] + [s[i]] + s[i + 1..]
  {
  }

  lemma JoinCons(p: string, rest: seq<string>, sep: char)
    requires |rest| >= 1
    ensures Join([p] + rest, sep) == p + [sep] + Join(rest, sep)
  {
    assert ([p] + rest)[1..] == rest;
  }

  /** Splitting a join of separator-free parts gives back those parts. */
  lemma {:induction false} SplitJoin(parts: seq<string>, sep: char)
    requires |parts| >= 1
    requires forall k :: 0 <= k < |parts| ==> sep !in parts[k]
    ensures Split(Join(parts, sep), sep) == parts
    decreases |parts|
  {
    if |parts| > 1 {
      var rest := Join(parts[1..], sep);
      assert Join(parts, sep) == parts[0] + [sep] + rest;
      CutAtFirst(parts[0], sep, rest);
      SplitJoin(parts[1..], sep);
      assert parts == [parts[0]] + parts[1..];
    }
  }

  /** In `p + [sep] + rest` with `p` free of `sep`, the first separator is
      the one after `p`. */
  lemma CutAtFirst(p: string, sep: char, rest: string)
    requires sep !in p
    ensures sep in p + [sep] + rest
    ensures Split(p + [sep] + rest, sep) == [p] + Split(rest, sep)
  {
    var s := p + [sep] + rest;
    assert s[|p|] == sep;
    assert s[..|p|] == p;
    assert FirstIndex(s, sep) == |p|;
    assert s[|p| + 1..] == rest;
  }

  /** With a separator present, the first two parts and the separator
      between them are a prefix of the text, followed by a separator or by
      the end of the text. */
  lemma SplitFirstTwo(s: string, sep: char)
    requires sep in s
    ensures |Split(s, sep)| >= 2
    ensures Split(s, sep)[0] + [sep] + Split(s, sep)[1] <= s
    ensures var n := |Split(s, sep)[0] + [sep] + Split(s, sep)[1]|;
            n < |s| ==> s[n] == sep
  {
    var i := FirstIndex(s, sep);
    var rest := Split(s[i + 1..], sep);
    SplitUnfold(s, sep);
    PrefixThenPart(s, i, rest[0], sep);
  }

  lemma SplitUnfold(s: string, sep: char)
    requires sep in s
    ensures Split(s, sep) == [s[..FirstIndex(s, sep)]] + Split(s[FirstIndex(s, sep) + 1..], sep)
  {
  }

  lemma PrefixThenPart(s: string, i: nat, d: string, sep: char)
    requires i < |s| && s[i] == sep
    requires d <= s[i + 1..]
    requires |d| < |s[i + 1..]| ==> s[i + 1..][|d|] == sep
    ensures s[..i] + [sep] + d <= s
    ensures |s[..i] + [sep] + d| < |s| ==> s[|s[..i] + [sep] + d|] == sep
  {
    assert s[..i] + [sep] + d == s[..i + 1 + |d|] by {
      assert s[..i + 1] == s[..i] + [s[i]];
      assert s[..i + 1 + |d|] == s[..i + 1] + s[i + 1..][..|d|];
    }
  }
}
