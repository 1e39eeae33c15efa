/** The network listing: the guard that holds back re-rendering while a
    network has no name yet, and the rows, one per network in name order. */
module NetworkList {
  import opened Records

  /** `networks.find(network => !network.name)`: the first network without a name. */
  function FindUnnamed(networks: seq<Network>): (found: Option<Network>)
    ensures found.None? <==> forall i :: 0 <= i < |networks| ==> TruthyString(networks[i].name)
    ensures found.Some? ==> found.value in networks && !TruthyString(found.value.name)
  {
    if networks == [] then None
    else if !TruthyString(networks[0].name) then Some(networks[0])
    else FindUnnamed(networks[1..])
  }

  /** The list re-renders only when every incoming network has a non-empty name. */
  function ShouldComponentUpdate(networks: seq<Network>): (update: bool)
    ensures !update <==> exists i :: 0 <= i < |networks| && !TruthyString(networks[i].name)
  {
    FindUnnamed(networks).None?
  }

  /** A comparator read as `le(a, b)`: "it does not put `b` before `a`". A
      consistent one relates every pair and is transitive. */
  ghost predicate Total<T(!new)>(le: (T, T) -> bool)
  {
    forall x, y :: le(x, y) || le(y, x)
  }

  ghost predicate Transitive<T(!new)>(le: (T, T) -> bool)
  {
    forall x, y, z :: le(x, y) && le(y, z) ==> le(x, z)
  }

  ghost predicate Sorted<T>(s: seq<T>, le: (T, T) -> bool)
  {
    forall i, j :: 0 <= i < j < |s| ==> le(s[i], s[j])
  }

  method Swap<T>(a: array<T>, i: nat, j: nat)
    requires i < a.Length && j < a.Length
    modifies a
    ensures a[..] == old(a[..])[i := old(a[j])][j := old(a[i])]
    ensures multiset(a[..]) == multiset(old(a[..]))
  {
    a[i], a[j] := a[j], a[i];
  }

  /** `Array.prototype.sort` with a consistent comparator: orders the array
      in place, only moving elements around. */
  method SortInPlace<T(!new)>(a: array<T>, le: (T, T) -> bool)
    requires Total(le) && Transitive(le)
    modifies a
    ensures Sorted(a[..], le)
    ensures multiset(a[..]) == multiset(old(a[..]))
  {
    var i := 0;
    while i < a.Length
      invariant i <= a.Length
      invariant multiset(a[..]) == multiset(old(a[..]))
      invariant forall p, q :: 0 <= p < q < i ==> le(a[p], a[q])
    {
      var j := i;
      while j > 0 && !le(a[j - 1], a[j])
        invariant 0 <= j <= i < a.Length
        invariant multiset(a[..]) == multiset(old(a[..]))
        invariant forall p, q :: 0 <= p < q <= i && p != j && q != j ==> le(a[p], a[q])
        invariant forall q :: j < q <= i ==> le(a[j], a[q])
      {
        Swap(a, j - 1, j);
        j := j - 1;
      }
      i := i + 1;
    }
    assert a[..] == a[..a.Length];
  }

  /** The name order on networks: `a.name.localeCompare(b.name) <= 0`, the
      locale's collation being any total preorder `le` on strings. */
  function NameOf(n: Network): string
  {
    if n.name.Some? then n.name.value else ""
  }

  predicate AllNamed(s: seq<Network>)
  {
    forall i :: 0 <= i < |s| ==> s[i].name.Some?
  }

  lemma ByNameIsPreorder(le: (string, string) -> bool)
    requires Total(le) && Transitive(le)
    ensures Total((x: Network, y: Network) => le(NameOf(x), NameOf(y)))
    ensures Transitive((x: Network, y: Network) => le(NameOf(x), NameOf(y)))
  {
    var byName := (x: Network, y: Network) => le(NameOf(x), NameOf(y));
    forall x: Network, y: Network
      ensures byName(x, y) || byName(y, x)
    {
      assert le(NameOf(x), NameOf(y)) || le(NameOf(y), NameOf(x));
    }
    forall x: Network, y: Network, z: Network | byName(x, y) && byName(y, z)
      ensures byName(x, z)
    {
      assert le(NameOf(x), NameOf(y)) && le(NameOf(y), NameOf(z));
    }
  }

  /** Reordering keeps every network named. */
  lemma AllNamedPermutation(s: seq<Network>, t: seq<Network>)
    requires AllNamed(s) && multiset(t) == multiset(s)
    ensures AllNamed(t)
  {
    forall i | 0 <= i < |t|
      ensures t[i].name.Some?
    {
      assert t[i] in multiset(t);
      assert t[i] in s;
    }
  }

  /** `render`: sorts the networks in place and maps each to its table row
      (`rowOf` stands for the row builder of another file). A single network
      is never passed to the comparator, so it may lack a name. */
  method Rows<R>(networks: array<Network>, le: (string, string) -> bool, rowOf: Network -> R)
    returns (rows: seq<R>)
    requires Total(le) && Transitive(le)
    requires networks.Length <= 1 || AllNamed(networks[..])
    modifies networks
    ensures |rows| == networks.Length
    ensures forall i :: 0 <= i < |rows| ==> rows[i] == rowOf(networks[i])
    ensures forall i, j :: 0 <= i < j < networks.Length ==> le(NameOf(networks[i]), NameOf(networks[j]))
    ensures networks.Length <= 1 || AllNamed(networks[..])
    ensures multiset(networks[..]) == multiset(old(networks[..]))
  {
    ByNameIsPreorder(le);
    SortInPlace(networks, (x: Network, y: Network) => le(NameOf(x), NameOf(y)));
    if 1 < networks.Length {
      AllNamedPermutation(old(networks[..]), networks[..]);
    }
    rows := seq(networks.Length, i requires 0 <= i < networks.Length reads networks => rowOf(networks[i]));
  }
}
