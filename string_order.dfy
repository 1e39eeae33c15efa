/** The order in which `Array.prototype.sort()` without a comparator puts
    strings: lexicographic by character code, a proper prefix first. */
module StringOrder {

  /** `a` sorts strictly before `b`. */
  predicate Less(a: string, b: string)
  {
    if |a| == 0 then |b| > 0
    else if |b| == 0 then false
    else if a[0] != b[0] then a[0] < b[0]
    else Less(a[1..], b[1..])
  }

  lemma {:induction false} LessIrreflexive(a: string)
    ensures !Less(a, a)
  {
    if |a| > 0 {
      LessIrreflexive(a[1..]);
    }
  }

  lemma {:induction false} LessTransitive(a: string, b: string, c: string)
    requires Less(a, b) && Less(b, c)
    ensures Less(a, c)
  {
    if |a| > 0 && |b| > 0 && |c| > 0 && a[0] == b[0] == c[0] {
      LessTransitive(a[1..], b[1..], c[1..]);
    }
  }

  /** Any two different strings are ordered one way or the other. */
  lemma {:induction false} LessTotal(a: string, b: string)
    requires a != b
    ensures Less(a, b) || Less(b, a)
  {
    if |a| > 0 && |b| > 0 && a[0] == b[0] {
      assert a == [a[0]] + a[1..] && b == [b[0]] + b[1..];
      LessTotal(a[1..], b[1..]);
    }
  }

  /** Every element is strictly before every later one (so also no duplicates). */
  predicate StrictlySorted(ks: seq<string>)
  {
    forall i, j :: 0 <= i < j < |ks| ==> Less(ks[i], ks[j])
  }

  predicate IsMin(m: string, s: set<string>)
  {
    m in s && forall k :: k in s && k != m ==> Less(m, k)
  }

  lemma {:induction false} MinExists(s: set<string>)
    requires s != {}
    ensures exists m :: IsMin(m, s)
    decreases s
  {
    var x :| x in s;
    if s == {x} {
      assert IsMin(x, s);
    } else {
      MinExists(s - {x});
      var m :| IsMin(m, s - {x});
      if Less(x, m) {
        forall k | k in s && k != x
          ensures Less(x, k)
        {
          if k != m {
            LessTransitive(x, m, k);
          }
        }
        assert IsMin(x, s);
      } else {
        LessTotal(x, m);
        assert IsMin(m, s);
      }
    }
  }

  lemma MinUnique(m1: string, m2: string, s: set<string>)
    requires IsMin(m1, s) && IsMin(m2, s)
    ensures m1 == m2
  {
    if m1 != m2 {
      LessTransitive(m1, m2, m1);
      LessIrreflexive(m1);
    }
  }

  ghost function MinOf(s: set<string>): (m: string)
    requires s != {}
    ensures IsMin(m, s)
  {
    MinExists(s);
    var m :| IsMin(m, s);
    m
  }

  /** The elements of `s` in ascending order: the one sequence that holds
      exactly them and is strictly sorted. */
  ghost function SortedEnum(s: set<string>): (ks: seq<string>)
    ensures forall k :: k in ks <==> k in s
    ensures StrictlySorted(ks)
    decreases s
  {
    if s == {} then []
    else
      var m := MinOf(s);
      [m] + SortedEnum(s - {m})
  }

  /** Taking the least remaining key extends the sorted prefix. */
  lemma SortStep(ks: seq<string>, rest: set<string>, m: string, keys: set<string>)
    requires ks + SortedEnum(rest) == SortedEnum(keys)
    requires IsMin(m, rest)
    ensures (ks + [m]) + SortedEnum(rest - {m}) == SortedEnum(keys)
  {
    MinUnique(m, MinOf(rest), rest);
    assert SortedEnum(rest) == [m] + SortedEnum(rest - {m});
    assert (ks + [m]) + SortedEnum(rest - {m}) == ks + ([m] + SortedEnum(rest - {m}));
  }

  /** `Object.keys(disks).sort()`: the keys of a record in ascending order,
      found by taking the least remaining key each round. */
  method SortKeys(keys: set<string>) returns (ks: seq<string>)
    ensures ks == SortedEnum(keys)
  {
    ks := [];
    var rest := keys;
    while rest != {}
      invariant ks + SortedEnum(rest) == SortedEnum(keys)
      decreases rest
    {
      MinExists(rest);
      var m :| IsMin(m, rest);
      SortStep(ks, rest, m, keys);
      ks := ks + [m];
      rest := rest - {m};
    }
  }
}
