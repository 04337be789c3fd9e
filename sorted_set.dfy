/**
 * The two Redis sorted sets `"poi"` and `"processed_poi"` and the three
 * commands the bot sends to them: ZPOPMIN, ZADD and ZREMRANGEBYSCORE. A
 * sorted set is a map from member text to score; Redis orders members by
 * score and breaks ties by comparing member bytes.
 */
module SortedSet {
  import opened Wrappers

  type ZSet = map<string, int>

  // ---------------------------------------------------------------------
  // Member order

  /** Lexicographic order by code point. For UTF-8 encoded members this is
      the byte order Redis uses between members of equal score. */
  predicate LexLess(a: string, b: string)
    decreases |a|
  {
    if a == [] then b != []
    else if b == [] then false
    else if a[0] != b[0] then a[0] < b[0]
    else LexLess(a[1..], b[1..])
  }

  lemma {:induction false} LexConnected(a: string, b: string)
    requires a != b
    ensures LexLess(a, b) || LexLess(b, a)
    decreases |a|
  {
    if a != [] && b != [] && a[0] == b[0] {
      assert a == [a[0]] + a[1..] && b == [b[0]] + b[1..];
      LexConnected(a[1..], b[1..]);
    }
  }

  lemma {:induction false} LexAsymmetric(a: string, b: string)
    ensures !(LexLess(a, b) && LexLess(b, a))
    decreases |a|
  {
    if a != [] && b != [] && a[0] == b[0] {
      LexAsymmetric(a[1..], b[1..]);
    }
  }

  lemma {:induction false} LexTransitive(a: string, b: string, c: string)
    requires LexLess(a, b) && LexLess(b, c)
    ensures LexLess(a, c)
    decreases |a|
  {
    if a != [] && b != [] && c != [] && a[0] == b[0] == c[0] {
      LexTransitive(a[1..], b[1..], c[1..]);
    }
  }

  /** Redis's order on the members of `z`: lower score first, equal scores
      by member text. */
  predicate Precedes(z: ZSet, a: string, b: string)
    requires a in z && b in z
  {
    z[a] < z[b] || (z[a] == z[b] && LexLess(a, b))
  }

  /** `k` is the first member of `z` in Redis's order. */
  predicate IsMin(z: ZSet, k: string) {
    k in z && forall j :: j in z && j != k ==> Precedes(z, k, j)
  }

  lemma PrecedesTransitive(z: ZSet, a: string, b: string, c: string)
    requires a in z && b in z && c in z
    requires Precedes(z, a, b) && Precedes(z, b, c)
    ensures Precedes(z, a, c)
  {
    if z[a] == z[b] == z[c] {
      LexTransitive(a, b, c);
    }
  }

  /** Every non-empty sorted set has a first member. */
  lemma {:induction false} MinExists(z: ZSet)
    requires z != map[]
    ensures exists k :: IsMin(z, k)
    decreases |z|
  {
    var x :| x in z;
    var rest := z - {x};
    if rest == map[] {
      assert forall j :: j in z && j != x ==> j in rest;
      assert IsMin(z, x);
    } else {
      assert |rest| < |z| by {
        assert rest.Keys == z.Keys - {x};
      }
      MinExists(rest);
      var m :| IsMin(rest, m);
      forall j | j in rest && j != m
        ensures Precedes(z, m, j)
      {
        assert Precedes(rest, m, j);
      }
      if Precedes(z, x, m) {
        forall j | j in z && j != x
          ensures Precedes(z, x, j)
        {
          if j != m {
            assert j in rest;
            PrecedesTransitive(z, x, m, j);
          }
        }
        assert IsMin(z, x);
      } else {
        if z[x] == z[m] {
          LexConnected(x, m);
        }
        forall j | j in z && j != m
          ensures Precedes(z, m, j)
        {
          if j != x {
            assert j in rest;
          }
        }
        assert IsMin(z, m);
      }
    }
  }

  /** The first member is unique. */
  lemma MinUnique(z: ZSet, a: string, b: string)
    requires IsMin(z, a) && IsMin(z, b)
    ensures a == b
  {
    if a != b {
      LexAsymmetric(a, b);
    }
  }

  /** The member ZPOPMIN takes from a non-empty set: it has the lowest
      score, and among members of that score the smallest text. */
  ghost function MinMember(z: ZSet): (k: string)
    requires z != map[]
    ensures k in z && forall j :: j in z ==> z[k] <= z[j]
    ensures forall j :: j in z && j != k && z[j] == z[k] ==> LexLess(k, j)
  {
    MinExists(z);
    var k :| IsMin(z, k);
    k
  }

  // ---------------------------------------------------------------------
  // Command semantics

  /** What ZPOPMIN with count 1 returns, and the set it leaves. */
  datatype Popped = Popped(member: Option<string>, rest: ZSet)

  /** ZPOPMIN key 1: nothing from an empty set; otherwise the first member,
      which is then gone, while every other member keeps its score. */
  ghost function PopMin(z: ZSet): (p: Popped)
    ensures p.member.None? <==> z == map[]
    ensures p.member.None? ==> p.rest == z
    ensures p.member.Some? ==> IsMin(z, p.member.value) && p.member.value !in p.rest
    ensures forall j :: j in p.rest <==> j in z && Some(j) != p.member
    ensures forall j :: j in p.rest ==> p.rest[j] == z[j]
  {
    if z == map[] then Popped(None, z)
    else
      var k := MinMember(z);
      assert IsMin(z, k) by {
        forall j | j in z && j != k
          ensures Precedes(z, k, j)
        {
          if z[j] == z[k] {
            LexConnected(k, j);
          }
        }
      }
      Popped(Some(k), z - {k})
  }

  /** The members ZREMRANGEBYSCORE key lo hi removes: score in [lo, hi],
      both bounds inclusive. */
  function InRange(z: ZSet, lo: int, hi: int): set<string> {
    set k | k in z && lo <= z[k] <= hi
  }

  /** The set ZREMRANGEBYSCORE key lo hi leaves behind. */
  function RemoveRange(z: ZSet, lo: int, hi: int): (r: ZSet)
    ensures r.Keys == z.Keys - InRange(z, lo, hi)
    ensures forall k :: k in r ==> r[k] == z[k]
    ensures |r| == |z| - |InRange(z, lo, hi)|
  {
    var r := map k | k in z && !(lo <= z[k] <= hi) :: z[k];
    assert r.Keys == z.Keys - InRange(z, lo, hi);
    assert |r.Keys| == |z.Keys| - |InRange(z, lo, hi)| by {
      CardDifference(z.Keys, InRange(z, lo, hi));
    }
    r
  }

  lemma CardDifference<T>(a: set<T>, b: set<T>)
    requires b <= a
    ensures |a - b| == |a| - |b|
  {
    assert a == (a - b) + b;
    assert (a - b) !! b;
  }

  /** A second removal over the same range finds nothing to remove. */
  lemma RemoveRangeAgain(z: ZSet, lo: int, hi: int)
    ensures InRange(RemoveRange(z, lo, hi), lo, hi) == {}
    ensures RemoveRange(RemoveRange(z, lo, hi), lo, hi) == RemoveRange(z, lo, hi)
  {
  }

  // ---------------------------------------------------------------------
  // The Redis connection

  /** The two keys the bot uses. */
  datatype Key = PoiKey | ProcessedPoiKey

  /** Any error reply or connection failure of a Redis command. */
  datatype RedisError = RedisError

  /** The contents of both keys (an absent key reads as an empty set). */
  datatype Sets = Sets(poi: ZSet, processedPoi: ZSet) {
    function Get(key: Key): ZSet {
      match key
      case PoiKey => poi
      case ProcessedPoiKey => processedPoi
    }

    function Put(key: Key, z: ZSet): (s: Sets)
      ensures s.Get(key) == z
      ensures forall other :: other != key ==> s.Get(other) == Get(other)
    {
      match key
      case PoiKey => Sets(z, processedPoi)
      case ProcessedPoiKey => Sets(poi, z)
    }
  }

  /** A Redis connection together with the server state it reaches. Each
      command takes `answered`: whether the server executed it and replied,
      as opposed to a connection or protocol error. */
  class Connection {
    var poi: ZSet
    var processedPoi: ZSet

    function State(): Sets
      reads this
    {
      Sets(poi, processedPoi)
    }

    method Store(key: Key, z: ZSet)
      modifies this
      ensures State() == old(State()).Put(key, z)
    {
      match key
      case PoiKey => poi := z;
      case ProcessedPoiKey => processedPoi := z;
    }

    /** ZPOPMIN key 1. */
    method ZPopMin(key: Key, answered: bool) returns (r: Result<Option<string>, RedisError>)
      modifies this
      ensures !answered ==> r == Failure(RedisError) && State() == old(State())
      ensures answered ==>
        var p := PopMin(old(State()).Get(key));
        r == Success(p.member) && State() == old(State()).Put(key, p.rest)
    {
      if !answered {
        return Failure(RedisError);
      }
      var z := State().Get(key);
      if z == map[] {
        return Success(None);
      }
      MinExists(z);
      var k :| k in z && IsMin(z, k);
      MinUnique(z, k, PopMin(z).member.value);
      Store(key, z - {k});
      return Success(Some(k));
    }

    /** ZADD key score member: sets the member's score, adding the member
        if absent; replies with the number of members added. */
    method ZAdd(key: Key, member: string, score: int, answered: bool) returns (r: Result<nat, RedisError>)
      modifies this
      ensures !answered ==> r == Failure(RedisError) && State() == old(State())
      ensures answered ==>
        && r == Success(if member in old(State()).Get(key) then 0 else 1)
        && State() == old(State()).Put(key, old(State()).Get(key)[member := score])
    {
      if !answered {
        return Failure(RedisError);
      }
      var z := State().Get(key);
      var added := if member in z then 0 else 1;
      Store(key, z[member := score]);
      return Success(added);
    }

    /** ZREMRANGEBYSCORE key lo hi: removes the members scored in
        [lo, hi] and replies with how many there were. */
    method ZRemRangeByScore(key: Key, lo: int, hi: int, answered: bool) returns (r: Result<nat, RedisError>)
      modifies this
      ensures !answered ==> r == Failure(RedisError) && State() == old(State())
      ensures answered ==>
        && r == Success(|InRange(old(State()).Get(key), lo, hi)|)
        && State() == old(State()).Put(key, RemoveRange(old(State()).Get(key), lo, hi))
    {
      if !answered {
        return Failure(RedisError);
      }
      var z := State().Get(key);
      var removed := InRange(z, lo, hi);
      Store(key, RemoveRange(z, lo, hi));
      return Success(|removed|);
    }
  }
}
