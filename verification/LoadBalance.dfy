// internal/loadbalance/picker.go: produce calls go to the leader, consume calls
// to the followers in turn, by a counter that wraps at 2^64.
module LoadBalance {
  import opened Bytes
  import opened Wrappers

  type SubConn = nat

  /** strings.Contains */
  predicate Contains(s: string, part: string) {
    |part| <= |s| && (s[..|part|] == part || (s != [] && Contains(s[1..], part)))
  }

  /** Some slice of `s` is `part`. */
  lemma {:induction false} ContainsMeans(s: string, part: string)
    ensures Contains(s, part) <==> exists i, j :: 0 <= i <= j <= |s| && s[i..j] == part
  {
    if Contains(s, part) {
      var i := ContainsAt(s, part);
      assert s[i..i + |part|] == part;
    }
    if i, j :| 0 <= i <= j <= |s| && s[i..j] == part {
      SliceContained(s, i, j);
    }
  }

  lemma {:induction false} ContainsAt(s: string, part: string) returns (i: nat)
    requires Contains(s, part)
    ensures i + |part| <= |s| && s[i..i + |part|] == part
  {
    i := 0;
    if s[..|part|] != part {
      var k := ContainsAt(s[1..], part);
      i := k + 1;
      assert s[1..][k..k + |part|] == s[i..i + |part|];
    }
  }

  lemma {:induction false} SliceContained(s: string, i: nat, j: nat)
    requires i <= j <= |s|
    ensures Contains(s, s[i..j])
    decreases i
  {
    var part := s[i..j];
    assert |part| == j - i;
    if i == 0 {
      assert s[..|part|] == part;
    } else {
      assert s[1..][i - 1..j - 1] == s[i..j];
      SliceContained(s[1..], i - 1, j - 1);
    }
  }

  /** What the full names of the service's methods contain, as gRPC hands them to Pick. */
  lemma {:induction false} ProduceNames()
    ensures Contains("/log.v1.Log/Produce", "Produce") && Contains("/log.v1.Log/ProduceStream", "Produce")
  {
    hide Contains;
    SliceContained("/log.v1.Log/Produce", 12, 19);
    SliceContained("/log.v1.Log/ProduceStream", 12, 19);
    assert "/log.v1.Log/Produce"[12..19] == "Produce" && "/log.v1.Log/ProduceStream"[12..19] == "Produce";
  }

  lemma {:induction false} ConsumeNames()
    ensures Contains("/log.v1.Log/Consume", "Consume") && Contains("/log.v1.Log/ConsumeStream", "Consume")
    ensures !Contains("/log.v1.Log/Consume", "Produce") && !Contains("/log.v1.Log/ConsumeStream", "Produce")
  {
    hide Contains;
    SliceContained("/log.v1.Log/Consume", 12, 19);
    SliceContained("/log.v1.Log/ConsumeStream", 12, 19);
    assert "/log.v1.Log/Consume"[12..19] == "Consume" && "/log.v1.Log/ConsumeStream"[12..19] == "Consume";
    FirstIn("/log.v1.Log/Consume", "Produce");
    FirstIn("/log.v1.Log/ConsumeStream", "Produce");
  }

  lemma {:induction false} OtherName()
    ensures !Contains("/log.v1.Log/GetServers", "Produce") && !Contains("/log.v1.Log/GetServers", "Consume")
  {
    hide Contains;
    FirstIn("/log.v1.Log/GetServers", "Produce");
    FirstIn("/log.v1.Log/GetServers", "Consume");
  }

  lemma {:induction false} FirstIn(s: string, part: string)
    requires part != []
    ensures Contains(s, part) ==> part[0] in s
  {
    if Contains(s, part) {
      var i := ContainsAt(s, part);
      assert s[i..i + |part|][0] == s[i];
    }
  }

  /** The follower picked `k` picks from now. */
  function PickAt(current: nat, k: nat, n: nat): (i: nat)
    requires n > 0
    ensures i < n
  {
    (current + 1 + k) % TWO_64 % n
  }

  /** No follower is listed twice. */
  predicate Distinct(followers: seq<SubConn>) {
    forall i, j :: 0 <= i < j < |followers| ==> followers[i] != followers[j]
  }

  class Picker {
    var leader: Option<SubConn>
    var followers: seq<SubConn>
    var current: uint64

    constructor ()
      ensures leader == None && followers == [] && current == 0
    {
      leader, followers, current := None, [], 0;
    }

    /** `ready` tells of each ready connection whether it is the leader; Go visits a
        map in any order.  Without a leader among them the old one stays. */
    method Build(ready: map<SubConn, bool>)
      modifies this
      ensures current == old(current)
      ensures multiset(followers) == multiset(set c | c in ready && !ready[c]) && Distinct(followers)
      ensures if exists c :: c in ready && ready[c] then leader.Some? && leader.value in ready && ready[leader.value]
              else leader == old(leader)
    {
      var picked: seq<SubConn> := [];
      var rest := ready.Keys;
      while rest != {}
        invariant rest <= ready.Keys && current == old(current)
        invariant multiset(picked) == multiset(set c | c in ready && !ready[c] && c !in rest)
        invariant if exists c :: c in ready && c !in rest && ready[c]
                  then leader.Some? && leader.value in ready && ready[leader.value] else leader == old(leader)
        decreases rest
      {
        var c :| c in rest;
        ghost var before := set d | d in ready && !ready[d] && d !in rest;
        rest := rest - {c};
        ghost var after := set d | d in ready && !ready[d] && d !in rest;
        if ready[c] {
          leader := Some(c);
          assert after == before;
        } else {
          picked := picked + [c];
          assert after == before + {c} && c !in before;
        }
      }
      assert (set c | c in ready && !ready[c] && c !in rest) == (set c | c in ready && !ready[c]);
      ListedOnce(picked, set c | c in ready && !ready[c]);
      followers := picked;
    }

    method NextFollower() returns (c: SubConn)
      requires followers != []
      modifies this`current
      ensures current == (old(current) + 1) % TWO_64
      ensures c == followers[PickAt(old(current), 0, |followers|)]
      ensures c == followers[(old(current) + 1) % TWO_64 % |followers|]
    {
      current := (current + 1) % TWO_64;
      c := followers[current % |followers|];
    }

    /** None stands for ErrNoSubConnAvailable. */
    method Pick(name: string) returns (c: Option<SubConn>)
      modifies this`current
      ensures var produce := followers == [] || exists i, j :: 0 <= i <= j <= |name| && name[i..j] == "Produce";
              var consume := !produce && exists i, j :: 0 <= i <= j <= |name| && name[i..j] == "Consume";
              && c == (if produce then leader
                       else if consume then Some(followers[(old(current) + 1) % TWO_64 % |followers|]) else None)
              && current == if consume then (old(current) + 1) % TWO_64 else old(current)
    {
      ContainsMeans(name, "Produce");
      ContainsMeans(name, "Consume");
      if Contains(name, "Produce") || |followers| == 0 {
        return leader;
      }
      if Contains(name, "Consume") {
        var f := NextFollower();
        return Some(f);
      }
      return None;
    }

    /** `m` consume calls in a row visit the followers that PickAt says, and so give
        each the floor or the ceiling of m / n while the counter does not wrap, and
        any two shares that differ by at most 2 across a wrap. */
    method PickMany(name: string, m: nat) returns (picks: seq<SubConn>)
      requires followers != [] && Contains(name, "Consume") && !Contains(name, "Produce")
      modifies this`current
      ensures |picks| == m && current == (old(current) + m) % TWO_64
      ensures forall k :: 0 <= k < m ==> picks[k] == followers[PickAt(old(current), k, |followers|)]
      ensures Distinct(followers) && old(current) + 1 + m <= TWO_64 ==>
                forall f :: f in followers ==> Floor(m, |followers|) <= multiset(picks)[f] <= Ceiling(m, |followers|)
      ensures Distinct(followers) && m <= TWO_64 ==>
                forall f, g :: f in followers && g in followers ==> multiset(picks)[f] <= multiset(picks)[g] + 2
    {
      hide Contains, PickAt;
      picks := [];
      for k := 0 to m
        invariant |picks| == k && current == (old(current) + k) % TWO_64
        invariant forall j :: 0 <= j < k ==> picks[j] == followers[PickAt(old(current), j, |followers|)]
      {
        WrapAdd(old(current), k, |followers|);
        ContainsMeans(name, "Produce");
        ContainsMeans(name, "Consume");
        var c := Pick(name);
        picks := picks + [c.value];
      }
      if Distinct(followers) {
        PicksFair(followers, old(current), picks);
      }
    }
  }

  lemma {:induction false} WrapAdd(current: nat, k: nat, n: nat)
    requires n > 0
    ensures PickAt((current + k) % TWO_64, 0, n) == ((current + k) % TWO_64 + 1) % TWO_64 % n == PickAt(current, k, n)
    ensures ((current + k) % TWO_64 + 1) % TWO_64 == (current + (k + 1)) % TWO_64
  {
    WrapOnce(current, k);
  }

  lemma {:induction false} WrapOnce(current: nat, k: nat)
    ensures ((current + k) % TWO_64 + 1) % TWO_64 == (current + (k + 1)) % TWO_64
  {
  }

  lemma {:induction false} ListedOnce(listed: seq<SubConn>, all: set<SubConn>)
    requires multiset(listed) == multiset(all)
    ensures Distinct(listed)
  {
    forall i, j | 0 <= i < j < |listed|
      ensures listed[i] != listed[j]
    {
      assert listed == listed[..j] + ([listed[j]] + listed[j + 1..]);
      assert listed[i] in multiset(listed[..j]);
      assert multiset(listed)[listed[j]] == multiset(listed[..j])[listed[j]] + 1 + multiset(listed[j + 1..])[listed[j]];
      assert multiset(all)[listed[j]] <= 1;
    }
  }

  // ---------- fairness

  function Floor(m: nat, n: nat): nat
    requires n > 0
  {
    m / n
  }

  function Ceiling(m: nat, n: nat): nat
    requires n > 0
  {
    (m + n - 1) / n
  }

  /** How many of the picks k, ..., k + m - 1 go to follower `f`. */
  function Count(current: nat, k: nat, m: nat, n: nat, f: nat): (c: nat)
    requires n > 0
    ensures c <= m
  {
    if m == 0 then 0
    else Count(current, k, m - 1, n, f) + if PickAt(current, k + m - 1, n) == f then 1 else 0
  }

  /** The numbers below `x` that leave `f` modulo `n`. */
  function Below(x: nat, n: nat, f: nat): nat
    requires f < n
  {
    (x + n - 1 - f) / n
  }

  lemma {:induction false} BelowStep(x: nat, n: nat, f: nat)
    requires f < n
    ensures Below(x + 1, n, f) == Below(x, n, f) + if x % n == f then 1 else 0
  {
    var a, b := x / n, x % n;
    assert x == n * a + b;
    assert n * (a + 1) == n * a + n;
    if b >= f {
      Quotient(x + n - f, n, a + 1, b - f);
    } else {
      Quotient(x + n - f, n, a, n + b - f);
    }
    if b > f {
      Quotient(x + n - 1 - f, n, a + 1, b - f - 1);
    } else {
      Quotient(x + n - 1 - f, n, a, n - 1 + b - f);
    }
  }

  lemma {:induction false} NoneBelow(n: nat, f: nat)
    requires f < n
    ensures Below(0, n, f) == 0
  {
    Quotient(n - 1 - f, n, 0, n - 1 - f);
  }

  lemma {:induction false} PickUnwrapped(current: nat, k: nat, n: nat)
    requires n > 0 && current + 1 + k < TWO_64
    ensures PickAt(current, k, n) == (current + 1 + k) % n
  {
    assert (current + 1 + k) % TWO_64 == current + 1 + k;
  }

  /** Without a wrap the picks are consecutive numbers modulo `n`. */
  lemma {:induction false} CountBelow(current: nat, k: nat, m: nat, n: nat, f: nat)
    requires f < n && current + 1 + k + m <= TWO_64
    ensures Count(current, k, m, n, f) == Below(current + 1 + k + m, n, f) - Below(current + 1 + k, n, f)
  {
    hide Below, PickAt;
    if m > 0 {
      CountBelow(current, k, m - 1, n, f);
      PickUnwrapped(current, k + m - 1, n);
      BelowStep(current + 1 + k + m - 1, n, f);
    }
  }

  /** (a + m) / n exceeds a / n by the floor or the ceiling of m / n. */
  lemma {:induction false} QuotientGap(a: nat, m: nat, n: nat)
    requires n > 0
    ensures Floor(m, n) <= (a + m) / n - a / n <= Ceiling(m, n)
  {
    QuotientSum(a, m, n, a / n, a % n, m / n, m % n);
    CeilingGap(m, n);
  }

  lemma {:induction false} Distribute(n: nat, q: int, s: int)
    ensures n * (q + s) == n * q + n * s && n * (q + s + 1) == n * q + n * s + n
  {
  }

  lemma {:induction false} QuotientSum(a: nat, m: nat, n: nat, q: nat, r: nat, s: nat, t: nat)
    requires a == n * q + r && m == n * s + t && r < n && t < n
    ensures (a + m) / n == q + s + if r + t < n then 0 else 1
  {
    Distribute(n, q, s);
    if r + t < n {
      Quotient(a + m, n, q + s, r + t);
    } else {
      Quotient(a + m, n, q + s + 1, r + t - n);
    }
  }

  lemma {:induction false} CeilingGap(m: nat, n: nat)
    requires n > 0
    ensures Ceiling(m, n) == Floor(m, n) + if m % n == 0 then 0 else 1
  {
    var s, t := m / n, m % n;
    assert m == n * s + t && n * (s + 1) == n * s + n;
    if t == 0 {
      Quotient(m + n - 1, n, s, n - 1);
    } else {
      Quotient(m + n - 1, n, s + 1, t - 1);
    }
  }

  /** While the counter does not wrap, `m` picks in a row give every follower the
      floor or the ceiling of m / n. */
  lemma {:induction false} FairWithoutWrap(current: nat, k: nat, m: nat, n: nat, f: nat)
    requires f < n && current + 1 + k + m <= TWO_64
    ensures Floor(m, n) <= Count(current, k, m, n, f) <= Ceiling(m, n)
  {
    hide Floor, Ceiling, Count;
    CountBelow(current, k, m, n, f);
    QuotientGap(current + 1 + k + n - 1 - f, m, n);
  }

  lemma {:induction false} CountSplit(current: nat, k: nat, a: nat, b: nat, n: nat, f: nat)
    requires n > 0
    ensures Count(current, k, a + b, n, f) == Count(current, k, a, n, f) + Count(current, k + a, b, n, f)
  {
    if b > 0 {
      CountSplit(current, k, a, b - 1, n, f);
    }
  }

  /** After the wrap the counter runs up from 0 again. */
  lemma {:induction false} CountWrapped(m: nat, n: nat, f: nat)
    requires f < n && m <= TWO_64
    ensures Count(TWO_64 - 1, 0, m, n, f) == Below(m, n, f)
  {
    hide Below;
    if m == 0 {
      NoneBelow(n, f);
    } else {
      CountWrapped(m - 1, n, f);
      assert (TWO_64 - 1 + 1 + (m - 1)) % TWO_64 == m - 1;
      BelowStep(m - 1, n, f);
    }
  }

  lemma {:induction false} CountShift(current: nat, k: nat, m: nat, n: nat, f: nat)
    requires n > 0
    ensures Count(current, k, m, n, f) == Count(current + k, 0, m, n, f)
  {
    if m > 0 {
      CountShift(current, k, m - 1, n, f);
    }
  }

  /** In any window of at most 2^64 picks, across a wrap or not, the shares of two
      followers differ by at most 2. */
  lemma {:induction false} FairAcrossWrap(current: uint64, m: nat, n: nat, f: nat, g: nat)
    requires f < n && g < n && m <= TWO_64
    ensures -2 <= Count(current, 0, m, n, f) - Count(current, 0, m, n, g) <= 2
  {
    var a := if current + 1 + m <= TWO_64 then m else TWO_64 - 1 - current;
    hide Floor, Ceiling, Count;
    CeilingGap(a, n);
    CeilingGap(m - a, n);
    ShareAcrossWrap(current, a, m - a, n, f);
    ShareAcrossWrap(current, a, m - a, n, g);
  }

  /** How often a follower occurs among the picks is what Count counts. */
  lemma {:induction false} PicksCounted(followers: seq<SubConn>, current: nat, picks: seq<SubConn>, f: nat)
    requires Distinct(followers) && f < |followers|
    requires forall k :: 0 <= k < |picks| ==> picks[k] == followers[PickAt(current, k, |followers|)]
    ensures multiset(picks)[followers[f]] == Count(current, 0, |picks|, |followers|, f)
    decreases |picks|
  {
    hide PickAt;
    if picks != [] {
      var init, last := picks[..|picks| - 1], picks[|picks| - 1];
      PicksCounted(followers, current, init, f);
      assert picks == init + [last];
      assert last == followers[PickAt(current, 0 + |picks| - 1, |followers|)];
    }
  }

  /** The same for the picks themselves. */
  lemma {:induction false} PicksFair(followers: seq<SubConn>, current: uint64, picks: seq<SubConn>)
    requires Distinct(followers) && followers != []
    requires forall k :: 0 <= k < |picks| ==> picks[k] == followers[PickAt(current, k, |followers|)]
    ensures current + 1 + |picks| <= TWO_64 ==>
              forall f :: f in followers ==>
                Floor(|picks|, |followers|) <= multiset(picks)[f] <= Ceiling(|picks|, |followers|)
    ensures |picks| <= TWO_64 ==>
              forall f, g :: f in followers && g in followers ==> multiset(picks)[f] <= multiset(picks)[g] + 2
  {
    hide PickAt, Floor, Ceiling, Count, Distinct;
    forall i | 0 <= i < |followers|
      ensures multiset(picks)[followers[i]] == Count(current, 0, |picks|, |followers|, i)
      ensures current + 1 + |picks| <= TWO_64 ==>
                Floor(|picks|, |followers|) <= multiset(picks)[followers[i]] <= Ceiling(|picks|, |followers|)
    {
      PicksCounted(followers, current, picks, i);
      if current + 1 + |picks| <= TWO_64 {
        FairWithoutWrap(current, 0, |picks|, |followers|, i);
      }
    }
    if |picks| <= TWO_64 {
      forall i, j | 0 <= i < |followers| && 0 <= j < |followers|
        ensures multiset(picks)[followers[i]] <= multiset(picks)[followers[j]] + 2
      {
        FairAcrossWrap(current, |picks|, |followers|, i, j);
      }
    }
  }

  lemma {:induction false} ShareAcrossWrap(current: uint64, a: nat, b: nat, n: nat, f: nat)
    requires f < n && current + 1 + a <= TWO_64 && b <= TWO_64 && (b > 0 ==> current + 1 + a == TWO_64)
    ensures Floor(a, n) + Floor(b, n) <= Count(current, 0, a + b, n, f) <= Ceiling(a, n) + Ceiling(b, n)
  {
    hide Below, Floor, Ceiling, Count;
    CountSplit(current, 0, a, b, n, f);
    FairWithoutWrap(current, 0, a, n, f);
    if b > 0 {
      CountShift(current, a, b, n, f);
      CountWrapped(b, n, f);
      ShareBelow(b, n, f);
    } else {
      NoShare(current, a, n, f);
    }
  }

  lemma {:induction false} NoShare(current: nat, k: nat, n: nat, f: nat)
    requires f < n
    ensures Count(current, k, 0, n, f) == Floor(0, n) == Ceiling(0, n) == 0
  {
    Quotient(0, n, 0, 0);
    Quotient(n - 1, n, 0, n - 1);
  }

  lemma {:induction false} ShareBelow(m: nat, n: nat, f: nat)
    requires f < n
    ensures Floor(m, n) <= Below(m, n, f) <= Ceiling(m, n)
  {
    hide Floor, Ceiling;
    QuotientGap(n - 1 - f, m, n);
    Quotient(n - 1 - f, n, 0, n - 1 - f);
  }
}
