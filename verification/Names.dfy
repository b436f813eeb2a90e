/** Type names: their order in a `std::map`, and how an underscore nests one in another. */
module Names {
  import opened Bytes

  type Path = seq<string>

  /** The lexicographic order of `std::string`. */
  predicate Less(a: string, b: string) {
    if b == [] then false
    else if a == [] then true
    else a[0] < b[0] || (a[0] == b[0] && Less(a[1..], b[1..]))
  }

  /** At the first place where they differ, or at the end of the one that is a prefix of the other. */
  lemma {:induction false} LessAt(a: string, b: string, k: nat)
    requires k <= |a| && k <= |b| && a[..k] == b[..k] && (k < |a| && k < |b| ==> a[k] != b[k])
    ensures Less(a, b) <==> k < |b| && (k == |a| || a[k] < b[k])
  {
    if k > 0 {
      assert a[0] == a[..k][0] == b[..k][0] == b[0];
      assert a[1..][..k - 1] == a[..k][1..] == b[..k][1..] == b[1..][..k - 1];
      LessAt(a[1..], b[1..], k - 1);
    }
  }

  lemma {:induction false} LessTotal(a: string, b: string)
    ensures Less(a, b) || a == b || Less(b, a)
  {
    if a != [] && b != [] && a[0] == b[0] {
      LessTotal(a[1..], b[1..]);
      assert a == [a[0]] + a[1..] && b == [b[0]] + b[1..];
    }
  }

  lemma {:induction false} LessTransitive(a: string, b: string, c: string)
    requires Less(a, b) && Less(b, c)
    ensures Less(a, c)
  {
    if a != [] && a[0] == b[0] && b[0] == c[0] {
      LessTransitive(a[1..], b[1..], c[1..]);
    }
  }

  lemma {:induction false} LessIrreflexive(a: string)
    ensures !Less(a, a)
  {
    if a != [] {
      LessIrreflexive(a[1..]);
    }
  }

  /** A name comes before its extensions. */
  lemma {:induction false} PrefixLess(a: string, b: string)
    requires a < b
    ensures Less(a, b)
  {
    if a != [] {
      PrefixLess(a[1..], b[1..]);
    }
  }

  // ---- the least key, and the next one ----

  predicate IsLeast(keys: set<string>, k: string) {
    k in keys && forall j :: j in keys && j != k ==> Less(k, j)
  }

  lemma LeastExists(keys: set<string>)
    requires keys != {}
    ensures exists k :: IsLeast(keys, k)
  {
    var x :| x in keys;
    if keys == {x} {
      assert IsLeast(keys, x);
    } else {
      LeastExists(keys - {x});
      var k :| IsLeast(keys - {x}, k);
      LessTotal(x, k);
      if Less(x, k) {
        forall j | j in keys && j != x
          ensures Less(x, j)
        {
          if j != k {
            LessTransitive(x, k, j);
          }
        }
        assert IsLeast(keys, x);
      } else {
        assert IsLeast(keys, k);
      }
    }
  }

  lemma LeastUnique(keys: set<string>, j: string, k: string)
    requires IsLeast(keys, j) && IsLeast(keys, k)
    ensures j == k
  {
    if j != k {
      LessTransitive(j, k, j);
      LessIrreflexive(j);
    }
  }

  /** `begin()` of an ordered map with these keys. */
  function Least(keys: set<string>): (k: string)
    requires keys != {}
    ensures IsLeast(keys, k)
  {
    LeastExists(keys);
    assert forall j, k | IsLeast(keys, j) && IsLeast(keys, k) :: j == k by {
      forall j, k | IsLeast(keys, j) && IsLeast(keys, k) ensures j == k { LeastUnique(keys, j, k); }
    }
    var k :| IsLeast(keys, k);
    k
  }

  /** `begin()` of a map that may be empty: `None` is `end()`. */
  function Begin(keys: set<string>): (first: Option<string>)
    ensures first == None <==> keys == {}
    ensures first.Some? ==> IsLeast(keys, first.value)
  {
    if keys == {} then None else Some(Least(keys))
  }

  /** No key comes before the first. */
  lemma NothingBefore(keys: set<string>, k: string, j: string)
    requires IsLeast(keys, k) && j in keys
    ensures !Less(j, k)
  {
    LessIrreflexive(k);
    if Less(j, k) {
      LessTransitive(k, j, k);
    }
  }

  /** The position behind `name`: `None` is `end()`. */
  function After(keys: set<string>, name: string): (next: Option<string>)
    ensures next == None ==> forall j | j in keys :: !Less(name, j)
    ensures next.Some? ==> next.value in keys && Less(name, next.value)
    ensures next.Some? ==> forall j | j in keys && Less(name, j) :: j == next.value || Less(next.value, j)
  {
    var later := set j | j in keys && Less(name, j);
    if later == {} then
      assert forall j | j in keys && Less(name, j) :: j in later;
      None
    else Some(Least(later))
  }

  /** The keys in the order a map visits them. */
  function Sorted(keys: set<string>): (s: seq<string>)
    ensures |s| == |keys| && forall k :: k in s <==> k in keys
    ensures forall i, j | 0 <= i < j < |s| :: s[i] != s[j]
    ensures forall i, j | 0 <= i < j < |s| :: Less(s[i], s[j])
  {
    if keys == {} then []
    else
      var k := Least(keys);
      [k] + Sorted(keys - {k})
  }

  // ---- underscores ----

  /** The position of the last underscore. */
  function FindLast(name: string): (r: Option<nat>)
    ensures r.Some? ==> r.value < |name| && name[r.value] == '_' && '_' !in name[r.value + 1..]
    ensures r == None <==> '_' !in name
  {
    if name == [] then None
    else if name[|name| - 1] == '_' then Some(|name| - 1)
    else
      var r := FindLast(name[..|name| - 1]);
      assert name == name[..|name| - 1] + [name[|name| - 1]];
      assert r.Some? ==> name[r.value + 1..] == name[..|name| - 1][r.value + 1..] + [name[|name| - 1]];
      r
  }

  function Parent(name: string): string
    requires '_' in name
  {
    name[..FindLast(name).value]
  }

  function NameInParent(name: string): (s: string)
    requires '_' in name
    ensures '_' !in s
  {
    name[FindLast(name).value + 1..]
  }

  /** Where a name ends up: one level per underscore. */
  ghost function NestedPath(name: string): (p: Path)
    ensures p != [] && forall i | 0 <= i < |p| :: '_' !in p[i]
    decreases |name|
  {
    if '_' !in name then [name] else NestedPath(Parent(name)) + [NameInParent(name)]
  }

  ghost function Compose(p: Path): string
    requires p != []
  {
    if |p| == 1 then p[0] else Compose(p[..|p| - 1]) + "_" + p[|p| - 1]
  }

  /** Different names end up in different places. */
  lemma {:induction false} ComposeNestedPath(name: string)
    ensures Compose(NestedPath(name)) == name
    decreases |name|
  {
    if '_' in name {
      ComposeNestedPath(Parent(name));
      var p := NestedPath(name);
      assert p[..|p| - 1] == NestedPath(Parent(name));
      assert name == Parent(name) + "_" + NameInParent(name);
    }
  }
}
