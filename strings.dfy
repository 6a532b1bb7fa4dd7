/**
 * The string operations of Python that the file tools rely on: the
 * substring test `k in s`, `sep.join(parts)` and, as the inverse of the
 * latter, `s.split(sep)` for a one-character separator.
 */
module Strings {

  /** `k` occurs in `s` as a contiguous block starting at index `i`. */
  predicate OccursAt(s: string, k: string, i: int) {
    0 <= i && i + |k| <= |s| && s[i..i + |k|] == k
  }

  /**
   * Python's `k in s` on strings: case-sensitive, no normalisation.
   * It tries `k` as a prefix of `s`, then of each shorter suffix.
   */
  predicate Contains(s: string, k: string)
    decreases |s|
  {
    (|k| <= |s| && s[..|k|] == k) || (|s| > 0 && Contains(s[1..], k))
  }

  /** The left-to-right scan of Contains finds exactly the occurrences. */
  lemma {:induction false} ContainsIff(s: string, k: string)
    ensures Contains(s, k) <==> exists i :: OccursAt(s, k, i)
    decreases |s|
  {
    if |k| <= |s| && s[..|k|] == k {
      assert OccursAt(s, k, 0);
    } else if |s| > 0 {
      ContainsIff(s[1..], k);
      if Contains(s[1..], k) {
        var i :| OccursAt(s[1..], k, i);
        assert s[i + 1..i + 1 + |k|] == s[1..][i..i + |k|];
        assert OccursAt(s, k, i + 1);
      }
      if exists i :: OccursAt(s, k, i) {
        var i :| OccursAt(s, k, i);
        assert i != 0;
        assert s[1..][i - 1..i - 1 + |k|] == s[i..i + |k|];
        assert OccursAt(s[1..], k, i - 1);
      }
    }
  }

  /** The empty keyword is a substring of every string. */
  lemma ContainsEmpty(s: string)
    ensures Contains(s, "")
  {
  }

  /** Every string contains itself. */
  lemma ContainsSelf(s: string)
    ensures Contains(s, s)
  {
  }

  /** An occurrence in either half is an occurrence in the concatenation. */
  lemma ContainsConcat(a: string, b: string, k: string)
    ensures Contains(a, k) ==> Contains(a + b, k)
    ensures Contains(b, k) ==> Contains(a + b, k)
  {
    ContainsIff(a, k);
    ContainsIff(b, k);
    ContainsIff(a + b, k);
    if Contains(a, k) {
      var i :| OccursAt(a, k, i);
      assert (a + b)[i..i + |k|] == a[i..i + |k|];
      assert OccursAt(a + b, k, i);
    }
    if Contains(b, k) {
      var i :| OccursAt(b, k, i);
      assert (a + b)[|a| + i..|a| + i + |k|] == b[i..i + |k|];
      assert OccursAt(a + b, k, |a| + i);
    }
  }

  /** Python's `sep.join(parts)`: the parts with `sep` between neighbours. */
  function Join(parts: seq<string>, sep: string): string
  {
    if |parts| == 0 then ""
    else if |parts| == 1 then parts[0]
    else parts[0] + sep + Join(parts[1..], sep)
  }

  /**
   * Python's `s.split(c)` for a single separator character: the maximal
   * runs between separators, so always at least one (possibly empty) piece.
   */
  function Split(s: string, c: char): (pieces: seq<string>)
    ensures |pieces| > 0
    decreases |s|
  {
    if |s| == 0 then [""]
    else
      var rest := Split(s[1..], c);
      if s[0] == c then [""] + rest
      else [[s[0]] + rest[0]] + rest[1..]
  }

  /** Every part is a substring of the joined string. */
  lemma {:induction false} JoinContainsParts(parts: seq<string>, sep: string, j: nat)
    requires j < |parts|
    ensures Contains(Join(parts, sep), parts[j])
  {
    if |parts| == 1 {
      ContainsSelf(parts[0]);
    } else if j == 0 {
      ContainsSelf(parts[0]);
      ContainsConcat(parts[0], sep, parts[0]);
      ContainsConcat(parts[0] + sep, Join(parts[1..], sep), parts[0]);
    } else {
      JoinContainsParts(parts[1..], sep, j - 1);
      ContainsConcat(parts[0] + sep, Join(parts[1..], sep), parts[j]);
    }
  }

  /** Splitting a string that starts with a separator-free word `w`. */
  lemma {:induction false} SplitAfterWord(w: string, t: string, c: char)
    requires c !in w
    ensures Split(w + t, c) == [w + Split(t, c)[0]] + Split(t, c)[1..]
    decreases |w|
  {
    if |w| == 0 {
      assert w + t == t;
      assert w + Split(t, c)[0] == Split(t, c)[0];
      assert [w + Split(t, c)[0]] + Split(t, c)[1..] == Split(t, c);
    } else {
      assert (w + t)[0] == w[0];
      assert (w + t)[1..] == w[1..] + t;
      SplitAfterWord(w[1..], t, c);
      assert [w[0]] + (w[1..] + Split(t, c)[0]) == w + Split(t, c)[0];
    }
  }

  /**
   * Joining the pieces of a split gives back the original string. The file
   * tools never split; this is the other half of the `Join`/`Split` law
   * whose first half, SplitJoin, reads a listing back.
   */
  lemma {:induction false} JoinSplit(s: string, c: char)
    ensures Join(Split(s, c), [c]) == s
    decreases |s|
  {
    if |s| > 0 {
      var rest := Split(s[1..], c);
      JoinSplit(s[1..], c);
      if s[0] == c {
        assert ([""] + rest)[1..] == rest;
        assert s == [c] + s[1..];
      } else if |rest| == 1 {
        assert s == [s[0]] + s[1..];
      } else {
        var pieces := [[s[0]] + rest[0]] + rest[1..];
        assert pieces[1..] == rest[1..];
        assert s == [s[0]] + s[1..];
      }
    }
  }

  /**
   * Splitting a join gives back the parts, provided there is at least one
   * part and no part contains the separator character.
   */
  lemma {:induction false} SplitJoin(parts: seq<string>, c: char)
    requires |parts| > 0
    requires forall j :: 0 <= j < |parts| ==> c !in parts[j]
    ensures Split(Join(parts, [c]), c) == parts
  {
    var w := parts[0];
    if |parts| == 1 {
      SplitAfterWord(w, "", c);
      assert w + "" == w;
    } else {
      var tail := Join(parts[1..], [c]);
      SplitJoin(parts[1..], c);
      assert Join(parts, [c]) == w + ([c] + tail);
      SplitAfterWord(w, [c] + tail, c);
      assert ([c] + tail)[0] == c;
      assert ([c] + tail)[1..] == tail;
      var after := Split([c] + tail, c);
      assert after == [""] + parts[1..];
      assert after[0] == "" && after[1..] == parts[1..];
      assert w + after[0] == w;
      assert parts == [w] + parts[1..];
    }
  }
}
