/**
 * The Python string built-ins the inventory keeper leans on: `str.split` on a
 * one-character separator, the substring test `t in s`, and the code-point
 * lexicographic order that `sorted()` uses on names.
 */
module Text {

  /** Python's `s.split(sep)` for a one-character separator: never empty, and
      it splits at every occurrence, so gluing the fields back gives `s`. */
  function Split(s: string, sep: char): (r: seq<string>)
    ensures |r| >= 1
    ensures forall i :: 0 <= i < |r| ==> sep !in r[i]
    ensures Join(r, sep) == s
    decreases |s|
  {
    if |s| == 0 then [""]
    else
      var rest := Split(s[1..], sep);
      if s[0] == sep then
        assert ([""] + rest)[1..] == rest;
        [""] + rest
      else
        var r := [[s[0]] + rest[0]] + rest[1..];
        assert |rest| > 1 ==> r[1..] == rest[1..];
        r
  }

  /** Python's `sep.join(parts)`. */
  function Join(parts: seq<string>, sep: char): string
    requires |parts| >= 1
  {
    if |parts| == 1 then parts[0] else parts[0] + [sep] + Join(parts[1..], sep)
  }

  /** Field `i` of `s.split(sep)`, or "" where Python would raise IndexError. */
  function Field(s: string, sep: char, i: nat): string
  {
    var fields := Split(s, sep);
    if i < |fields| then fields[i] else ""
  }

  /** A second field exists exactly when the separator occurs. */
  lemma SplitHasSecondField(s: string, sep: char)
    ensures sep in s <==> |Split(s, sep)| >= 2
  {
    var r := Split(s, sep);
    if |r| >= 2 {
      assert Join(r, sep) == r[0] + [sep] + Join(r[1..], sep);
      assert s[|r[0]|] == sep;
    }
  }

  lemma {:induction false} SplitAtFirst(a: string, b: string, sep: char)
    requires sep !in a
    ensures Split(a + [sep] + b, sep) == [a] + Split(b, sep)
    decreases |a|
  {
    if |a| == 0 {
      assert a + [sep] + b == [sep] + b;
      assert ([sep] + b)[1..] == b;
    } else {
      assert (a + [sep] + b)[1..] == a[1..] + [sep] + b;
      SplitAtFirst(a[1..], b, sep);
      assert [a[0]] + a[1..] == a;
    }
  }

  lemma {:induction false} SplitWithoutSep(s: string, sep: char)
    requires sep !in s
    ensures Split(s, sep) == [s]
  {
    SplitHasSecondField(s, sep);
  }

  /** Splitting undoes joining fields that do not contain the separator. */
  lemma {:induction false} SplitJoin(parts: seq<string>, sep: char)
    requires |parts| >= 1
    requires forall i :: 0 <= i < |parts| ==> sep !in parts[i]
    ensures Split(Join(parts, sep), sep) == parts
    decreases |parts|
  {
    if |parts| == 1 {
      SplitWithoutSep(parts[0], sep);
    } else {
      SplitJoin(parts[1..], sep);
      SplitAtFirst(parts[0], Join(parts[1..], sep), sep);
      assert [parts[0]] + parts[1..] == parts;
    }
  }

  /** Python's `t in s` on strings, read as: `t` is a prefix of some suffix of `s`. */
  predicate Contains(s: string, t: string)
    decreases |s|
  {
    (|t| <= |s| && s[..|t|] == t) || (|s| > 0 && Contains(s[1..], t))
  }

  /** `t` occurs in `s` starting at index `i`. */
  predicate OccursAt(s: string, t: string, i: int)
  {
    0 <= i && i + |t| <= |s| && s[i..i + |t|] == t
  }

  lemma OccursInTail(s: string, t: string, i: int)
    requires |s| > 0 && OccursAt(s[1..], t, i)
    ensures OccursAt(s, t, i + 1)
  {
    assert s[1..][i..i + |t|] == s[i + 1..i + 1 + |t|];
  }

  lemma OccursAfterHead(s: string, t: string, i: int)
    requires OccursAt(s, t, i) && i != 0
    ensures |s| > 0 && OccursAt(s[1..], t, i - 1)
  {
    assert s[1..][i - 1..i - 1 + |t|] == s[i..i + |t|];
  }

  /** The recursive substring test agrees with its index-based reading. */
  lemma {:induction false} ContainsIffOccurs(s: string, t: string)
    ensures Contains(s, t) <==> exists i :: OccursAt(s, t, i)
    decreases |s|
  {
    if |t| <= |s| && s[..|t|] == t {
      assert OccursAt(s, t, 0);
    } else if |s| > 0 {
      ContainsIffOccurs(s[1..], t);
      if Contains(s[1..], t) {
        var i :| OccursAt(s[1..], t, i);
        OccursInTail(s, t, i);
      }
      if i :| OccursAt(s, t, i) {
        assert s[0..|t|] == s[..|t|];
        OccursAfterHead(s, t, i);
      }
    }
  }

  /** Every character of a found substring is a character of the string. */
  lemma ContainsChar(s: string, t: string, k: nat)
    requires Contains(s, t) && k < |t|
    ensures t[k] in s
  {
    ContainsIffOccurs(s, t);
    var i :| OccursAt(s, t, i);
    assert s[i + k] == t[k];
  }

  /** A substring of a middle part is a substring of the whole. */
  lemma ContainsWithin(a: string, b: string, c: string, t: string)
    requires Contains(b, t)
    ensures Contains(a + b + c, t)
  {
    ContainsIffOccurs(b, t);
    ContainsIffOccurs(a + b + c, t);
    var i :| OccursAt(b, t, i);
    assert (a + b + c)[|a| + i..|a| + i + |t|] == b[i..i + |t|];
    assert OccursAt(a + b + c, t, |a| + i);
  }

  /** A string that starts with `t` contains `t`. */
  lemma ContainsPrefix(t: string, b: string)
    ensures Contains(t + b, t)
  {
    assert (t + b)[..|t|] == t;
  }

  /** A first character that cannot start `t` can be dropped from the search. */
  lemma ContainsDropFirst(s: string, t: string)
    requires |s| > 0 && |t| > 0 && s[0] != t[0]
    ensures Contains(s, t) <==> Contains(s[1..], t)
  {
  }

  /** A prefix holding no first character of `t` can be skipped in the search. */
  lemma {:induction false} ContainsSkipPrefix(p: string, x: string, t: string)
    requires |t| > 0 && t[0] !in p
    ensures Contains(p + x, t) <==> Contains(x, t)
    decreases |p|
  {
    if |p| > 0 {
      assert (p + x)[1..] == p[1..] + x;
      ContainsDropFirst(p + x, t);
      ContainsSkipPrefix(p[1..], x, t);
    } else {
      assert p + x == x;
    }
  }

  /**
   * An occurrence of `t` cannot run past the end of `a` into `b` when the last
   * character of `t` does not occur in `b`.
   */
  lemma ContainsBeforeBarrier(a: string, b: string, t: string)
    requires |t| > 0 && t[|t| - 1] !in b
    ensures Contains(a + b, t) <==> Contains(a, t)
  {
    ContainsIffOccurs(a + b, t);
    ContainsIffOccurs(a, t);
    if i :| OccursAt(a + b, t, i) {
      if i + |t| <= |a| {
        assert (a + b)[i..i + |t|] == a[i..i + |t|];
        assert OccursAt(a, t, i);
      } else {
        RunPastChar(a, b, t, i);
        assert false;
      }
    }
    if j :| OccursAt(a, t, j) {
      assert (a + b)[j..j + |t|] == a[j..j + |t|];
      assert OccursAt(a + b, t, j);
    }
  }

  lemma RunPastChar(a: string, b: string, t: string, i: int)
    requires |t| > 0 && OccursAt(a + b, t, i) && |a| < i + |t|
    ensures t[|t| - 1] == b[i + |t| - 1 - |a|]
  {
    assert (a + b)[i..i + |t|][|t| - 1] == (a + b)[i + |t| - 1];
  }

  /** Python's `a < b` on str: lexicographic on code points, a proper prefix first. */
  predicate Less(a: string, b: string)
    decreases |a|
  {
    if |a| == 0 then |b| > 0
    else |b| > 0 && (a[0] < b[0] || (a[0] == b[0] && Less(a[1..], b[1..])))
  }

  lemma {:induction false} LessIrreflexive(a: string)
    ensures !Less(a, a)
    decreases |a|
  {
    if |a| > 0 {
      LessIrreflexive(a[1..]);
    }
  }

  lemma {:induction false} LessTransitive(a: string, b: string, c: string)
    requires Less(a, b) && Less(b, c)
    ensures Less(a, c)
    decreases |a|
  {
    if |a| > 0 && a[0] == b[0] && b[0] == c[0] {
      LessTransitive(a[1..], b[1..], c[1..]);
    }
  }

  /** Any two distinct strings are ordered one way or the other. */
  lemma {:induction false} LessTotal(a: string, b: string)
    ensures a == b || Less(a, b) || Less(b, a)
    decreases |a|
  {
    if |a| > 0 && |b| > 0 && a[0] == b[0] {
      LessTotal(a[1..], b[1..]);
      if a[1..] == b[1..] {
        assert a == [a[0]] + a[1..] && b == [b[0]] + b[1..];
      }
    }
  }

  lemma LessAsymmetric(a: string, b: string)
    requires Less(a, b)
    ensures !Less(b, a)
  {
    if Less(b, a) {
      LessTransitive(a, b, a);
      LessIrreflexive(a);
    }
  }
}
