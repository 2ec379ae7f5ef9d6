/** How many shares a secret gets and how many recover it (secretweb_client.py, setup_secretweb.py). */
module Quorum {
  import opened Wrappers
  import opened Decoder

  datatype ParameterError = MoreSharesThanPeers | TresholdOutOfRange

  /** `_shares_and_treshold` of the client: every peer gets a share and the treshold is a majority of the
      shares unless the caller says otherwise, and two refusals. */
  function SharesAndTreshold(trustedPeers: nat, shares: Option<int>, treshold: Option<int>):
    (r: Result<(int, int), ParameterError>)
    ensures r.Success? ==> 2 <= r.value.1 <= r.value.0 <= trustedPeers && ValidParameters(r.value.0, r.value.1)
    ensures r.Success? ==> r.value.0 == match shares case Some(n) => n case None => trustedPeers
    ensures r.Success? && treshold.Some? ==> r.value.1 == treshold.value
    ensures r.Success? && treshold.None? ==> r.value.0 < 2 * r.value.1 <= r.value.0 + 2
    ensures r == Failure(MoreSharesThanPeers) <==> shares.Some? && shares.value > trustedPeers
    ensures shares.None? && treshold.None? ==> (r.Success? <==> trustedPeers >= 2)
    ensures shares.Some? && treshold.None? ==> (r.Success? <==> 2 <= shares.value <= trustedPeers)
    ensures treshold.Some? ==>
              var n := match shares case Some(n) => n case None => trustedPeers;
              r.Success? <==> n <= trustedPeers && 2 <= treshold.value <= n
  {
    var n := if shares.Some? then shares.value else trustedPeers;
    var t := if treshold.Some? then treshold.value else n / 2 + 1;
    if n > trustedPeers then Failure(MoreSharesThanPeers)
    else if !(2 <= t <= n) then Failure(TresholdOutOfRange)
    else Success((n, t))
  }

  /** `_shares_and_treshold` of the bootstrap: one share of a host's KEY1 for every other host. */
  function Key1Parameters(otherHosts: nat): (r: (int, int))
    ensures r.0 == otherHosts && otherHosts < 2 * r.1 <= otherHosts + 2
  {
    (otherHosts, otherHosts / 2 + 1)
  }

  /** Any two groups of t holders share a member. */
  ghost predicate QuorumsIntersect(all: set<string>, t: int) {
    forall a, b :: a <= all && b <= all && |a| >= t && |b| >= t ==> a * b != {}
  }

  /** The default treshold is a majority: it is the least for which any two groups of that many of the n
      holders share a member, and it is still reached when (n - 1) / 2 holders, and no more, are lost. */
  lemma DefaultTresholdIsMajority(all: set<string>, t: int)
    requires t <= |all|
    ensures QuorumsIntersect(all, t) <==> t >= |all| / 2 + 1
    ensures |all| >= 2 ==> |all| - (|all| - 1) / 2 >= |all| / 2 + 1 > |all| - (|all| - 1) / 2 - 1
    ensures |all| >= 2 ==> SharesAndTreshold(|all|, None, None) == Success((|all|, |all| / 2 + 1))
    ensures Key1Parameters(|all|) == (|all|, |all| / 2 + 1)
  {
    if t >= |all| / 2 + 1 {
      forall a, b | a <= all && b <= all && |a| >= t && |b| >= t
        ensures a * b != {}
      {
        MajoritiesIntersect(all, a, b);
      }
    } else if t <= 0 {
      var a: set<string> := {};
      assert a <= all && |a| >= t && a * a == {};
    } else {
      var a := SomeOf(all, t);
      assert all == a + (all - a);
      var b := SomeOf(all - a, t);
      assert a <= all && b <= all && a * b == {};
    }
  }

  lemma MajoritiesIntersect(all: set<string>, a: set<string>, b: set<string>)
    requires a <= all && b <= all && |a| >= |all| / 2 + 1 && |b| >= |all| / 2 + 1
    ensures a * b != {}
  {
    var u := a + b;
    assert all == u + (all - u);
    assert |u| == |a| + |b| - |a * b|;
  }

  lemma {:induction false} SomeOf(all: set<string>, t: nat) returns (a: set<string>)
    requires t <= |all|
    ensures a <= all && |a| == t
  {
    if t == 0 {
      a := {};
    } else {
      var x :| x in all;
      var rest := SomeOf(all - {x}, t - 1);
      a := rest + {x};
    }
  }

  lemma SubsetSize<T>(a: set<T>, b: set<T>)
    requires a <= b
    ensures |a| <= |b|
  {
    assert b == a + (b - a);
  }
}
