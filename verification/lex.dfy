/**
 Python's ordering of `str` values: code point by code point, with a
 proper prefix ordered before the longer string. `sorted` over the keys of
 a dict (which are distinct) is modelled as arranging a set of strings in
 strictly ascending order.
 */
module Lex {

  /** `a` and `b` agree before position `k` and `a` has the smaller code point at `k`. */
  predicate DiffersFirstAt(a: string, b: string, k: nat) {
    k < |a| && k < |b| && a[..k] == b[..k] && a[k] < b[k]
  }

  /**
   Lexicographic order as usually stated: at the first position where the
   strings differ, `a` has the smaller code point, or `a` is a proper
   prefix of `b`.
   */
  ghost predicate LexBefore(a: string, b: string) {
    || (exists k: nat :: DiffersFirstAt(a, b, k))
    || (|a| < |b| && a == b[..|a|])
  }

  lemma DiffersFirstAtTail(a: string, b: string, k: nat)
    requires |a| > 0 && |b| > 0 && a[0] == b[0] && DiffersFirstAt(a, b, k)
    ensures k > 0 && DiffersFirstAt(a[1..], b[1..], k - 1)
  {
    assert k > 0 by {
      if k == 0 {
        assert a[k] < b[k];
      }
    }
    assert a[1..][..k - 1] == a[..k][1..] && b[1..][..k - 1] == b[..k][1..];
  }

  lemma DiffersFirstAtCons(a: string, b: string, k: nat)
    requires |a| > 0 && |b| > 0 && a[0] == b[0] && DiffersFirstAt(a[1..], b[1..], k)
    ensures DiffersFirstAt(a, b, k + 1)
  {
    assert a[..k + 1] == [a[0]] + a[1..][..k] && b[..k + 1] == [b[0]] + b[1..][..k];
  }

  /** Strings that start with the same character compare as their tails do. */
  lemma LexBeforeOfTails(a: string, b: string)
    requires |a| > 0 && |b| > 0 && a[0] == b[0]
    ensures LexBefore(a, b) <==> LexBefore(a[1..], b[1..])
  {
    if exists k: nat :: DiffersFirstAt(a, b, k) {
      var k: nat :| DiffersFirstAt(a, b, k);
      DiffersFirstAtTail(a, b, k);
    }
    if exists k: nat :: DiffersFirstAt(a[1..], b[1..], k) {
      var k: nat :| DiffersFirstAt(a[1..], b[1..], k);
      DiffersFirstAtCons(a, b, k);
    }
    assert |a| < |b| && a == b[..|a|] <==> |a| - 1 < |b| - 1 && a[1..] == b[1..][..|a| - 1] by {
      if |a| < |b| && a[1..] == b[1..][..|a| - 1] {
        assert a == [a[0]] + a[1..] && b[..|a|] == [b[0]] + b[1..][..|a| - 1];
      }
    }
  }

  /** Strings whose first characters differ compare by those characters. */
  lemma LexBeforeOfHeads(a: string, b: string)
    requires |a| > 0 && |b| > 0 && a[0] != b[0]
    ensures LexBefore(a, b) <==> a[0] < b[0]
  {
    if a[0] < b[0] {
      assert DiffersFirstAt(a, b, 0);
    }
    forall k: nat | 0 < k <= |a| && k <= |b| ensures a[..k] != b[..k] {
      assert a[..k][0] == a[0] && b[..k][0] == b[0];
    }
  }

  /** `a < b` on Python strings. */
  predicate Less(a: string, b: string)
    ensures Less(a, b) <==> LexBefore(a, b)
    decreases |a|
  {
    if |a| == 0 then assert a == b[..0]; |b| > 0
    else if |b| == 0 then false
    else if a[0] == b[0] then LexBeforeOfTails(a, b); Less(a[1..], b[1..])
    else LexBeforeOfHeads(a, b); a[0] < b[0]
  }

  lemma {:induction false} LessIrreflexive(a: string)
    ensures !Less(a, a)
    decreases |a|
  {
    if |a| > 0 {
      LessIrreflexive(a[1..]);
    }
  }

  lemma {:induction false} LessTransitive(a: string, b: string, c: string)
    requires Less(a, b) && Less(b, c)
    ensures Less(a, c)
    decreases |a|
  {
    if |a| > 0 && a[0] == b[0] && b[0] == c[0] {
      LessTransitive(a[1..], b[1..], c[1..]);
    }
  }

  lemma {:induction false} LessTotal(a: string, b: string)
    requires a != b
    ensures Less(a, b) || Less(b, a)
    decreases |a|
  {
    if |a| > 0 && |b| > 0 && a[0] == b[0] {
      assert a == [a[0]] + a[1..] && b == [b[0]] + b[1..];
      LessTotal(a[1..], b[1..]);
    }
  }

  lemma LessAsymmetric(a: string, b: string)
    requires Less(a, b)
    ensures !Less(b, a)
  {
    if Less(b, a) {
      LessTransitive(a, b, a);
      LessIrreflexive(a);
    }
  }

  predicate StrictlySorted(s: seq<string>) {
    forall i, j :: 0 <= i < j < |s| ==> Less(s[i], s[j])
  }

  predicate Distinct<T(==)>(s: seq<T>) {
    forall i, j :: 0 <= i < j < |s| ==> s[i] != s[j]
  }

  /** Both sequences hold the same values, ignoring order and repetition. */
  ghost predicate SameElements(a: seq<string>, b: seq<string>) {
    forall z :: z in a <==> z in b
  }

  /** Places a new string into a strictly ascending sequence. */
  function Insert(s: seq<string>, x: string): (r: seq<string>)
    requires StrictlySorted(s) && x !in s
    ensures StrictlySorted(r)
    ensures forall z :: z in r <==> z in s || z == x
    ensures |r| == |s| + 1
  {
    if |s| == 0 then [x]
    else if Less(x, s[0]) then
      assert forall j :: 0 <= j < |s| ==> Less(x, s[j]) by {
        forall j | 0 <= j < |s| ensures Less(x, s[j]) {
          if j > 0 { LessTransitive(x, s[0], s[j]); }
        }
      }
      [x] + s
    else
      LessTotal(x, s[0]);
      var rest := Insert(s[1..], x);
      assert forall j :: 0 <= j < |rest| ==> Less(s[0], rest[j]) by {
        forall j | 0 <= j < |rest| ensures Less(s[0], rest[j]) {
          assert rest[j] in rest;
          if rest[j] != x {
            var k :| 0 <= k < |s[1..]| && s[1..][k] == rest[j];
            assert s[k + 1] == rest[j];
          }
        }
      }
      assert s == [s[0]] + s[1..];
      [s[0]] + rest
  }

  /** `sorted(keys)` for distinct keys: the same strings, strictly ascending. */
  function Sort(keys: seq<string>): (r: seq<string>)
    requires Distinct(keys)
    ensures StrictlySorted(r)
    ensures SameElements(r, keys)
    ensures |r| == |keys|
  {
    if |keys| == 0 then []
    else
      var init := keys[..|keys| - 1];
      var last := keys[|keys| - 1];
      var sorted := Sort(init);
      assert keys == init + [last];
      Insert(sorted, last)
  }

  /**
   A strictly ascending arrangement of a set of strings is unique, so the
   sorted output is fixed by the keys alone, whatever their first-seen order.
   */
  lemma {:induction false} StrictlySortedUnique(a: seq<string>, b: seq<string>)
    requires StrictlySorted(a) && StrictlySorted(b)
    requires SameElements(a, b)
    ensures a == b
    decreases |a|
  {
    if |a| > 0 {
      assert a[0] in a;
    }
    if |b| > 0 {
      assert b[0] in b;
    }
    if |a| > 0 && |b| > 0 {
      if a[0] != b[0] {
        var i :| 0 <= i < |b| && b[i] == a[0];
        var j :| 0 <= j < |a| && a[j] == b[0];
        assert Less(b[0], a[0]);
        assert Less(a[0], b[0]);
        LessAsymmetric(a[0], b[0]);
      }
      forall z ensures z in a[1..] <==> z in b[1..] {
        if z in a[1..] {
          var k :| 0 <= k < |a[1..]| && a[1..][k] == z;
          assert Less(a[0], a[k + 1]);
          LessIrreflexive(a[0]);
          assert z in b;
          var m :| 0 <= m < |b| && b[m] == z;
          assert m != 0;
          assert b[1..][m - 1] == z;
        }
        if z in b[1..] {
          var k :| 0 <= k < |b[1..]| && b[1..][k] == z;
          assert Less(b[0], b[k + 1]);
          LessIrreflexive(b[0]);
          assert z in a;
          var m :| 0 <= m < |a| && a[m] == z;
          assert m != 0;
          assert a[1..][m - 1] == z;
        }
      }
      StrictlySortedUnique(a[1..], b[1..]);
      assert a == [a[0]] + a[1..];
      assert b == [b[0]] + b[1..];
    }
  }
}
