/** pygame's sprite `Group`, as the round uses it: an insertion-ordered sequence
    that holds each sprite at most once; `add` appends, `kill()` removes. */
module Groups {

  predicate Distinct<T(==)>(s: seq<T>) {
    forall i, j :: 0 <= i < j < |s| ==> s[i] != s[j]
  }

  /** The sprites of a group, as the set of objects a method may change. */
  function Members<T>(s: seq<T>): set<T> {
    set x | x in s
  }

  /** `sprite.kill()` as seen by one group: the sprite is gone, every other
      member stays, in its order. */
  function Remove<T(==)>(s: seq<T>, x: T): (r: seq<T>)
    ensures x !in r
    ensures forall i :: 0 <= i < |r| ==> r[i] in s && r[i] != x
    ensures forall i :: 0 <= i < |s| && s[i] != x ==> s[i] in r
    ensures |r| <= |s|
  {
    if s == [] then []
    else if s[0] == x then Remove(s[1..], x)
    else [s[0]] + Remove(s[1..], x)
  }

  lemma {:induction false} RemoveAbsent<T>(s: seq<T>, x: T)
    requires x !in s
    ensures Remove(s, x) == s
  {
    if s != [] {
      RemoveAbsent(s[1..], x);
    }
  }

  lemma {:induction false} RemoveAppend<T>(s: seq<T>, t: seq<T>, x: T)
    ensures Remove(s + t, x) == Remove(s, x) + Remove(t, x)
  {
    if s == [] {
      assert s + t == t;
    } else {
      assert (s + t)[1..] == s[1..] + t;
      RemoveAppend(s[1..], t, x);
    }
  }

  /** A member of a distinct group occurs neither before nor after its slot. */
  lemma Apart<T>(s: seq<T>, j: nat)
    requires Distinct(s) && j < |s|
    ensures s[j] !in s[..j] && s[j] !in s[j + 1..]
  {
    forall k | 0 <= k < j
      ensures s[..j][k] != s[j]
    {
      assert s[..j][k] == s[k];
    }
    var rest := s[j + 1..];
    forall k | 0 <= k < |rest|
      ensures rest[k] != s[j]
    {
      assert rest[k] == s[j + 1 + k];
    }
  }

  /** What `Group.update()` leaves of a group: the members whose `update`
      did not call `kill()` (flag set), in their order. */
  function Kept<T>(s: seq<T>, alive: seq<bool>): (r: seq<T>)
    requires |s| == |alive|
  {
    if s == [] then []
    else Kept(s[..|s| - 1], alive[..|s| - 1]) + (if alive[|s| - 1] then [s[|s| - 1]] else [])
  }

  /** One more member through `Group.update()`. */
  lemma KeptStep<T>(s: seq<T>, alive: seq<bool>, b: bool)
    requires |alive| < |s|
    ensures Kept(s[..|alive| + 1], alive + [b]) == Kept(s[..|alive|], alive) + (if b then [s[|alive|]] else [])
  {
    var i := |alive|;
    var t, l := s[..i + 1], alive + [b];
    assert t[..i] == s[..i] && t[i] == s[i];
    assert l[..i] == alive && l[i] == b;
    assert Kept(t, l) == Kept(t[..i], l[..i]) + (if l[i] then [t[i]] else []);
  }

  /** `Group.update()` adds nothing to the group. */
  lemma {:induction false} KeptWithin<T>(s: seq<T>, alive: seq<bool>)
    requires |s| == |alive|
    ensures forall i :: 0 <= i < |Kept(s, alive)| ==> Kept(s, alive)[i] in s
  {
    if s != [] {
      var n := |s| - 1;
      KeptWithin(s[..n], alive[..n]);
      var before := Kept(s[..n], alive[..n]);
      assert forall i :: 0 <= i < |before| ==> before[i] in s[..n];
    }
  }

  lemma {:induction false} DistinctKept<T>(s: seq<T>, alive: seq<bool>)
    requires |s| == |alive| && Distinct(s)
    ensures Distinct(Kept(s, alive))
  {
    if s != [] {
      var n := |s| - 1;
      var before := Kept(s[..n], alive[..n]);
      DistinctKept(s[..n], alive[..n]);
      KeptWithin(s[..n], alive[..n]);
      if alive[n] {
        Apart(s, n);
        forall k | 0 <= k < |before|
          ensures before[k] != s[n]
        {
          assert before[k] in s[..n];
        }
        DistinctAppend(before, [s[n]]);
      }
    }
  }

  /** Removing the head of the untried part of a group, after a prefix that
      does not hold it, leaves the prefix and the rest. */
  lemma RemoveFrom<T>(prefix: seq<T>, s: seq<T>, j: nat)
    requires j < |s| && s[j] !in prefix && s[j] !in s[j + 1..]
    ensures Remove(prefix + s[j..], s[j]) == prefix + s[j + 1..]
  {
    assert s[j..] == [s[j]] + s[j + 1..];
    RemoveAppend(prefix, s[j..], s[j]);
    RemoveAbsent(prefix, s[j]);
    RemoveHead(s[j], s[j + 1..]);
  }

  lemma RemoveHead<T>(x: T, rest: seq<T>)
    requires x !in rest
    ensures Remove([x] + rest, x) == rest
  {
    assert ([x] + rest)[1..] == rest;
    RemoveAbsent(rest, x);
  }

  /** Removing a member of a group takes out exactly its one slot. */
  lemma RemoveAt<T>(s: seq<T>, j: nat)
    requires Distinct(s) && j < |s|
    ensures Remove(s, s[j]) == s[..j] + s[j + 1..]
  {
    Apart(s, j);
    Rejoin(s, j);
    RemoveFrom(s[..j], s, j);
  }

  lemma TakeNext<T>(s: seq<T>, n: nat)
    requires n < |s|
    ensures s[..n + 1] == s[..n] + [s[n]]
  {
  }

  lemma Rejoin<T>(s: seq<T>, j: nat)
    requires j <= |s|
    ensures s[..j] + s[j..] == s
  {
  }

  lemma {:induction false} DistinctRemove<T>(s: seq<T>, x: T)
    requires Distinct(s)
    ensures Distinct(Remove(s, x))
  {
    if s != [] {
      DistinctRemove(s[1..], x);
      assert s[0] !in s[1..];
    }
  }

  lemma DistinctAppend<T>(s: seq<T>, t: seq<T>)
    requires Distinct(s) && Distinct(t)
    requires forall k :: 0 <= k < |t| ==> t[k] !in s
    ensures Distinct(s + t)
  {
    forall p, q | 0 <= p < q < |s + t|
      ensures (s + t)[p] != (s + t)[q]
    {
      if p < |s| && q >= |s| {
        assert (s + t)[q] == t[q - |s|];
        assert (s + t)[p] in s;
      }
    }
  }

  /** A member that is killed after new sprites were added: the group keeps
      the others in order, followed by the additions, each still once. */
  lemma KillAfterAdd<T>(group: seq<T>, added: seq<T>, j: nat)
    requires Distinct(group) && Distinct(added) && j < |group|
    requires forall k :: 0 <= k < |added| ==> added[k] !in group
    ensures Remove(group + added, group[j]) == group[..j] + group[j + 1..] + added
    ensures Distinct(group[..j] + group[j + 1..] + added)
  {
    assert group[j] !in added;
    RemoveAt(group, j);
    RemoveAppend(group, added, group[j]);
    RemoveAbsent(added, group[j]);
    DistinctRemove(group, group[j]);
    DistinctAppend(group[..j] + group[j + 1..], added);
  }
}
