/** Splitting a text at a separator character and joining parts with one.
    Both presentation formats are built from these: a dotted quad is four
    numerals joined by '.', an IPv6 address groups joined by ':'. */
module Strings {

  /** The fields of `s` between occurrences of `sep`, scanned left to right
      the way a character-at-a-time parser sees them: a separator closes the
      current field and opens an empty one. There is always at least one field. */
  function Split(s: string, sep: char): (fields: seq<string>)
    ensures |fields| >= 1
    decreases |s|
  {
    if s == [] then [[]]
    else
      var f := Split(s[..|s| - 1], sep);
      var c := s[|s| - 1];
      if c == sep then f + [[]]
      else f[..|f| - 1] + [f[|f| - 1] + [c]]
  }

  /** The parts separated by one `sep` each; no parts give the empty text. */
  function Join(parts: seq<string>, sep: char): string
    decreases |parts|
  {
    if |parts| == 0 then []
    else if |parts| == 1 then parts[0]
    else Join(parts[..|parts| - 1], sep) + [sep] + parts[|parts| - 1]
  }

  lemma {:induction false} AppendAssoc<T>(a: seq<T>, b: seq<T>, c: seq<T>)
    ensures (a + b) + c == a + (b + c)
  {
  }

  /** A sequence of four elements is the display of its elements. */
  lemma {:induction false} Four<T>(x: seq<T>)
    requires |x| == 4
    ensures x == [x[0], x[1], x[2], x[3]]
  {
  }

  predicate Free(s: string, c: char) {
    forall k :: 0 <= k < |s| ==> s[k] != c
  }

  lemma {:induction false} SplitFree(s: string, sep: char)
    requires Free(s, sep)
    ensures Split(s, sep) == [s]
    decreases |s|
  {
    if s != [] {
      SplitFree(s[..|s| - 1], sep);
      assert s[..|s| - 1] + [s[|s| - 1]] == s;
    }
  }

  /** One more character either closes the current field or extends it. */
  lemma {:induction false} SplitSnoc(s: string, c: char, sep: char)
    ensures var f := Split(s, sep);
      Split(s + [c], sep) == if c == sep then f + [[]] else f[..|f| - 1] + [f[|f| - 1] + [c]]
  {
    assert (s + [c])[..|s|] == s;
  }

  /** A separator ends every field before it: splitting `a + [sep] + b` gives
      the fields of `a` followed by the fields of `b`. */
  lemma {:induction false} SplitAround(a: string, sep: char, b: string)
    ensures Split(a + [sep] + b, sep) == Split(a, sep) + Split(b, sep)
    decreases |b|
  {
    if b == [] {
      assert a + [sep] + b == a + [sep];
      SplitSnoc(a, sep, sep);
    } else {
      var b', c := b[..|b| - 1], b[|b| - 1];
      assert b' + [c] == b;
      SplitAround(a, sep, b');
      assert a + [sep] + b == (a + [sep] + b') + [c];
      SplitStep(Split(a, sep), a + [sep] + b', b', c, sep);
    }
  }

  /** Fields already closed stay closed when a character is appended. */
  lemma {:induction false} SplitStep(fa: seq<string>, s: string, b: string, c: char, sep: char)
    requires Split(s, sep) == fa + Split(b, sep)
    ensures Split(s + [c], sep) == fa + Split(b + [c], sep)
  {
    if c != sep {
      SplitStepOpen(fa, s, b, c, sep);
    } else {
      SplitSnoc(s, c, sep);
      SplitSnoc(b, c, sep);
      AppendAssoc(fa, Split(b, sep), [[]]);
    }
  }

  lemma {:induction false} SplitStepOpen(fa: seq<string>, s: string, b: string, c: char, sep: char)
    requires c != sep && Split(s, sep) == fa + Split(b, sep)
    ensures Split(s + [c], sep) == fa + Split(b + [c], sep)
  {
    SplitSnoc(s, c, sep);
    SplitSnoc(b, c, sep);
    ExtendLast(fa, Split(s, sep), Split(b, sep), Split(s + [c], sep), Split(b + [c], sep), c);
  }

  /** Extending the last element of `fa + g` extends the last element of `g`. */
  lemma {:induction false} ExtendLast<T>(fa: seq<seq<T>>, f: seq<seq<T>>, g: seq<seq<T>>, f': seq<seq<T>>, g': seq<seq<T>>, c: T)
    requires |g| >= 1 && f == fa + g
    requires f' == f[..|f| - 1] + [f[|f| - 1] + [c]]
    requires g' == g[..|g| - 1] + [g[|g| - 1] + [c]]
    ensures f' == fa + g'
  {
    ReplaceLast(fa, g, g[|g| - 1] + [c]);
  }

  /** Replacing the last element of `x + y` replaces the last element of `y`. */
  lemma {:induction false} ReplaceLast<T>(x: seq<T>, y: seq<T>, z: T)
    requires |y| >= 1
    ensures var xy := x + y;
      xy[|xy| - 1] == y[|y| - 1] && xy[..|xy| - 1] + [z] == x + (y[..|y| - 1] + [z])
  {
    var xy := x + y;
    assert xy[..|xy| - 1] == x + y[..|y| - 1];
  }

  lemma {:induction false} JoinSnoc(init: seq<string>, x: string, sep: char)
    requires |init| >= 1
    ensures Join(init + [x], sep) == Join(init, sep) + [sep] + x
  {
    assert (init + [x])[..|init|] == init;
  }

  lemma {:induction false} Join4(a: string, b: string, c: string, d: string, sep: char)
    ensures Join([a, b, c, d], sep) == a + [sep] + b + [sep] + c + [sep] + d
  {
    JoinSnoc([a], b, sep);
    assert [a, b] == [a] + [b];
    JoinSnoc([a, b], c, sep);
    assert [a, b, c] == [a, b] + [c];
    JoinSnoc([a, b, c], d, sep);
    assert [a, b, c, d] == [a, b, c] + [d];
  }

  /** Joining undoes splitting. */
  lemma {:induction false} JoinSplit(s: string, sep: char)
    ensures Join(Split(s, sep), sep) == s
    decreases |s|
  {
    if s != [] {
      var s' := s[..|s| - 1];
      var c := s[|s| - 1];
      var f := Split(s', sep);
      JoinSplit(s', sep);
      assert s' + [c] == s;
      if c == sep {
        JoinSnoc(f, [], sep);
      } else if |f| == 1 {
        assert Split(s, sep) == [f[0] + [c]];
      } else {
        var init := f[..|f| - 1];
        assert f == init + [f[|f| - 1]];
        JoinSnoc(init, f[|f| - 1], sep);
        JoinSnoc(init, f[|f| - 1] + [c], sep);
      }
    }
  }

  /** Splitting undoes joining parts that do not contain the separator. */
  lemma {:induction false} SplitJoin(parts: seq<string>, sep: char)
    requires |parts| >= 1
    requires forall k :: 0 <= k < |parts| ==> Free(parts[k], sep)
    ensures Split(Join(parts, sep), sep) == parts
    decreases |parts|
  {
    if |parts| == 1 {
      SplitFree(parts[0], sep);
    } else {
      var init := parts[..|parts| - 1];
      var last := parts[|parts| - 1];
      SplitJoin(init, sep);
      SplitAround(Join(init, sep), sep, last);
      SplitFree(last, sep);
      assert init + [last] == parts;
    }
  }

  /** The fields of a prefix of `s` are, but for the last, fields of `s`,
      and the prefix's last field begins the corresponding field of `s`. */
  lemma {:induction false} SplitPrefix(s: string, k: nat, sep: char)
    requires k <= |s|
    ensures |Split(s[..k], sep)| <= |Split(s, sep)|
    ensures forall j :: 0 <= j < |Split(s[..k], sep)| - 1 ==>
      Split(s, sep)[j] == Split(s[..k], sep)[j]
    ensures Split(s[..k], sep)[|Split(s[..k], sep)| - 1] <= Split(s, sep)[|Split(s[..k], sep)| - 1]
    decreases |s| - k
  {
    if k < |s| {
      var s' := s[..|s| - 1];
      assert s'[..k] == s[..k];
      SplitPrefix(s', k, sep);
    } else {
      assert s[..k] == s;
    }
  }

  /** No two `c` in a row. */
  predicate NoDoubled(s: string, c: char) {
    forall k :: 0 <= k < |s| - 1 ==> !(s[k] == c && s[k + 1] == c)
  }

  /** Parts free of `c` joined by another character are free of `c`. */
  lemma {:induction false} JoinFree(parts: seq<string>, sep: char, c: char)
    requires sep != c && forall k :: 0 <= k < |parts| ==> Free(parts[k], c)
    ensures Free(Join(parts, sep), c)
    decreases |parts|
  {
    if |parts| > 1 {
      var init, last := parts[..|parts| - 1], parts[|parts| - 1];
      JoinFree(init, sep, c);
      var a := Join(init, sep);
      var j := a + [sep] + last;
      forall k | 0 <= k < |j|
        ensures j[k] != c
      {
        if k < |a| {
          assert j[k] == a[k];
        } else if k > |a| {
          assert j[k] == last[k - |a| - 1];
        }
      }
    }
  }

  /** Non-empty parts free of the separator, joined, neither begin nor end
      with it nor have it twice in a row. */
  lemma {:induction false} JoinShape(parts: seq<string>, sep: char)
    requires |parts| >= 1
    requires forall k :: 0 <= k < |parts| ==> parts[k] != [] && Free(parts[k], sep)
    ensures var j := Join(parts, sep); j != [] && j[0] != sep && j[|j| - 1] != sep && NoDoubled(j, sep)
    decreases |parts|
  {
    if |parts| > 1 {
      var init, last := parts[..|parts| - 1], parts[|parts| - 1];
      JoinShape(init, sep);
      var a := Join(init, sep);
      var j := a + [sep] + last;
      assert j[0] == a[0] && j[|j| - 1] == last[|last| - 1];
      forall k | 0 <= k < |j| - 1
        ensures !(j[k] == sep && j[k + 1] == sep)
      {
        if k < |a| - 1 {
          assert j[k] == a[k] && j[k + 1] == a[k + 1];
        } else if k == |a| - 1 {
          assert j[k] == a[k];
        } else if k == |a| {
          assert j[k + 1] == last[0];
        } else {
          assert j[k] == last[k - |a| - 1];
        }
      }
    }
  }

  /** Two separators put between texts that have none twice in a row, and
      none where they meet them, are the only two in a row. */
  lemma {:induction false} DoubledOnlyBetween(x: string, y: string, sep: char)
    requires NoDoubled(x, sep) && NoDoubled(y, sep)
    requires x == [] || x[|x| - 1] != sep
    requires y == [] || y[0] != sep
    ensures var s := x + [sep, sep] + y;
      forall k :: 0 <= k < |s| - 1 ==> (s[k] == sep && s[k + 1] == sep <==> k == |x|)
  {
    var s := x + [sep, sep] + y;
    forall k | 0 <= k < |s| - 1
      ensures s[k] == sep && s[k + 1] == sep <==> k == |x|
    {
      if k < |x| - 1 {
        assert s[k] == x[k] && s[k + 1] == x[k + 1];
      } else if k == |x| - 1 {
        assert s[k] == x[k];
      } else if k == |x| + 1 {
        assert s[k + 1] == y[0];
      } else if k > |x| + 1 {
        assert s[k] == y[k - |x| - 2] && s[k + 1] == y[k - |x| - 1];
      }
    }
  }
}
