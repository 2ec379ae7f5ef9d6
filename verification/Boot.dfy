/** The circular dependency of the boot: a host listens only once it has its KEY1, and gets its KEY1
    only from hosts that listen. Hosts are numbered 0 to n-1; every host holds a share of every other
    host's KEY1, of which t = (n - 1) / 2 + 1 recover it. */
module Boot {
  import Quorum

  /** Booting remembers the peers that have contributed, over all rounds. */
  datatype Status = Up | Down | Booting(collected: set<int>)

  type Network = seq<Status>

  function Treshold(n: nat): (t: nat)
    ensures n >= 1 ==> t == (n - 1) / 2 + 1
  {
    if n == 0 then 0 else Quorum.Key1Parameters(n - 1).1
  }

  function Hosts(n: nat): (s: set<int>)
    ensures |s| == n && forall i :: i in s <==> 0 <= i < n
  {
    if n == 0 then {} else Hosts(n - 1) + {n - 1}
  }

  function UpHosts(net: Network): (s: set<int>)
    ensures forall i :: i in s <==> 0 <= i < |net| && net[i].Up?
  {
    set i | i in Hosts(|net|) && net[i].Up?
  }

  // ---------- steps ----------

  /** A host starts its initiator, asks one peer, finishes with enough shares, or stops. */
  datatype Step = Start(host: nat) | Ask(host: nat, peer: nat) | Finish(host: nat) | Stop(host: nat)

  predicate Enabled(net: Network, s: Step) {
    s.host < |net| &&
    match s
    case Start(h) => net[h].Down?
    case Ask(h, p) => net[h].Booting? && p < |net| && net[p].Up? && p !in net[h].collected
                      && |net[h].collected| < Treshold(|net|)
    case Finish(h) => net[h].Booting? && |net[h].collected| >= Treshold(|net|)
    case Stop(h) => true
  }

  function Next(net: Network, s: Step): (net': Network)
    requires Enabled(net, s)
    ensures |net'| == |net|
  {
    match s
    case Start(h) => net[h := Booting({})]
    case Ask(h, p) => net[h := Booting(net[h].collected + {p})]
    case Finish(h) => net[h := Up]
    case Stop(h) => net[h := Down]
  }

  ghost predicate Runs(net: Network, steps: seq<Step>, net': Network)
    decreases |steps|
  {
    if steps == [] then net' == net
    else Enabled(net, steps[0]) && Runs(Next(net, steps[0]), steps[1..], net')
  }

  /** Nobody stops. */
  predicate BootOnly(steps: seq<Step>) {
    forall k :: 0 <= k < |steps| ==> !steps[k].Stop?
  }

  /** Some host completes its boot. */
  predicate Finishes(steps: seq<Step>) {
    exists k :: 0 <= k < |steps| && steps[k].Finish?
  }

  /** What a host has collected are other hosts. */
  ghost predicate NetworkValid(net: Network) {
    forall h :: 0 <= h < |net| && net[h].Booting? ==> net[h].collected <= Hosts(|net|) - {h}
  }

  /** What one step does: it concerns one host; a host begins its boot with nothing collected, a booting
      host collects from one more host that is up, and only until it has a majority of the others, and a
      host comes up only from a boot that has one. */
  lemma StepEffect(net: Network, s: Step)
    requires Enabled(net, s)
    ensures var (h, net', t) := (s.host, Next(net, s), (|net| - 1) / 2 + 1);
      && (forall i :: 0 <= i < |net| && i != h ==> net'[i] == net[i])
      && (net'[h].Down? <==> s.Stop?)
      && (net'[h].Up? ==> net[h].Booting? && |net[h].collected| >= t)
      && (net'[h].Booting? && !net[h].Booting? ==> net[h].Down? && net'[h].collected == {})
      && (net'[h].Booting? && net[h].Booting? ==>
            && |net[h].collected| < t && |net'[h].collected - net[h].collected| == 1
            && net[h].collected <= net'[h].collected <= net[h].collected + UpHosts(net))
  {
    if s.Ask? {
      assert Next(net, s)[s.host].collected - net[s.host].collected == {s.peer};
    }
  }

  lemma NextKeepsValid(net: Network, s: Step)
    requires NetworkValid(net) && Enabled(net, s)
    ensures NetworkValid(Next(net, s))
  {
  }

  // ---------- with a majority up, booting completes ----------

  /** Boot steps left for one host: start, one question per peer, finish. */
  function StepsLeft(status: Status, n: nat): int {
    match status
    case Up => 0
    case Down => n + 2
    case Booting(c) => n + 1 - |c|
  }

  function TotalLeft(net: Network, n: nat): int {
    if net == [] then 0 else StepsLeft(net[0], n) + TotalLeft(net[1..], n)
  }

  lemma {:induction false} TotalLeftUpdate(net: Network, h: nat, status: Status, n: nat)
    requires h < |net|
    ensures TotalLeft(net[h := status], n) == TotalLeft(net, n) - StepsLeft(net[h], n) + StepsLeft(status, n)
  {
    var net' := net[h := status];
    if h == 0 {
      assert net'[1..] == net[1..];
    } else {
      assert net'[1..] == net[1..][h - 1 := status];
      TotalLeftUpdate(net[1..], h - 1, status, n);
    }
  }

  lemma {:induction false} TotalLeftNonNegative(net: Network, n: nat)
    requires forall h :: 0 <= h < |net| && net[h].Booting? ==> |net[h].collected| <= n
    ensures TotalLeft(net, n) >= 0
    ensures TotalLeft(net, n) == 0 ==> forall h :: 0 <= h < |net| ==> net[h].Up?
  {
    if net != [] {
      TotalLeftNonNegative(net[1..], n);
      assert forall h :: 1 <= h < |net| ==> net[h] == net[1..][h - 1];
    }
  }

  lemma CollectedIsSmall(net: Network, h: nat)
    requires NetworkValid(net) && h < |net| && net[h].Booting?
    ensures |net[h].collected| <= |net| - 1
  {
    var others := Hosts(|net|) - {h};
    assert |others| == |net| - 1;
    assert others == net[h].collected + (others - net[h].collected);
  }

  /** Every boot step lowers the number of steps left, so boot steps alone always come to an end. */
  lemma BootStepDecreases(net: Network, s: Step)
    requires NetworkValid(net) && Enabled(net, s) && !s.Stop?
    ensures 0 <= TotalLeft(Next(net, s), |net|) < TotalLeft(net, |net|)
  {
    NextKeepsValid(net, s);
    var net' := Next(net, s);
    forall h | 0 <= h < |net'| && net'[h].Booting?
      ensures |net'[h].collected| <= |net|
    {
      CollectedIsSmall(net', h);
    }
    TotalLeftNonNegative(net', |net|);
    TotalLeftUpdate(net, s.host, net'[s.host], |net|);
    if s.Finish? {
      CollectedIsSmall(net, s.host);
    }
  }

  /** With at least t hosts up a boot step is possible as long as some host is not up. */
  lemma MajorityIsNotStuck(net: Network, h: nat) returns (s: Step)
    requires |UpHosts(net)| >= Treshold(|net|) && h < |net| && !net[h].Up?
    ensures Enabled(net, s) && !s.Stop? && s.host == h
  {
    if net[h].Down? {
      s := Start(h);
    } else if |net[h].collected| >= Treshold(|net|) {
      s := Finish(h);
    } else {
      if UpHosts(net) <= net[h].collected {
        Quorum.SubsetSize(UpHosts(net), net[h].collected);
        assert false;
      }
      var p :| p in UpHosts(net) && p !in net[h].collected;
      s := Ask(h, p);
    }
  }

  /** Boot steps never make a host less up. */
  lemma BootStepKeepsUp(net: Network, s: Step)
    requires Enabled(net, s) && !s.Stop?
    ensures UpHosts(net) <= UpHosts(Next(net, s)) && |UpHosts(net)| <= |UpHosts(Next(net, s))|
  {
    var a, b := UpHosts(net), UpHosts(Next(net, s));
    assert a <= b;
    assert b == a + (b - a);
  }

  ghost predicate AllUp(net: Network) {
    forall h :: 0 <= h < |net| ==> net[h].Up?
  }

  /** With at least t hosts up, boot steps can bring every host up; and since each of them lowers
      TotalLeft and none is possible only when all are up, they do so in whatever order they come. */
  lemma {:induction false} MajorityBringsAllUp(net: Network) returns (steps: seq<Step>, net': Network)
    requires NetworkValid(net) && |UpHosts(net)| >= Treshold(|net|)
    ensures Runs(net, steps, net') && BootOnly(steps) && AllUp(net')
    decreases TotalLeft(net, |net|)
  {
    if AllUp(net) {
      return [], net;
    }
    var h :| 0 <= h < |net| && !net[h].Up?;
    var s := MajorityIsNotStuck(net, h);
    NextKeepsValid(net, s);
    BootStepDecreases(net, s);
    BootStepKeepsUp(net, s);
    var rest;
    rest, net' := MajorityBringsAllUp(Next(net, s));
    steps := [s] + rest;
  }

  /** In every order of boot steps: where no further one is possible, all hosts are up. */
  lemma {:induction false} MaximalBootRunEndsAllUp(net: Network, steps: seq<Step>, net': Network)
    requires NetworkValid(net) && |UpHosts(net)| >= Treshold(|net|)
    requires Runs(net, steps, net') && BootOnly(steps)
    requires forall s :: Enabled(net', s) ==> s.Stop?
    ensures AllUp(net') && |steps| <= TotalLeft(net, |net|)
    decreases |steps|
  {
    if steps == [] {
      if !AllUp(net') {
        var h :| 0 <= h < |net| && !net[h].Up?;
        var s := MajorityIsNotStuck(net, h);
        assert false;
      }
      TotalIsNonNegative(net);
    } else {
      NextKeepsValid(net, steps[0]);
      BootStepDecreases(net, steps[0]);
      BootStepKeepsUp(net, steps[0]);
      assert forall k :: 0 <= k < |steps[1..]| ==> steps[1..][k] == steps[k + 1];
      MaximalBootRunEndsAllUp(Next(net, steps[0]), steps[1..], net');
    }
  }

  lemma TotalIsNonNegative(net: Network)
    requires NetworkValid(net)
    ensures TotalLeft(net, |net|) >= 0
  {
    forall h | 0 <= h < |net| && net[h].Booting?
      ensures |net[h].collected| <= |net|
    {
      CollectedIsSmall(net, h);
    }
    TotalLeftNonNegative(net, |net|);
  }

  // ---------- without enough hosts, nobody ever completes ----------

  /** Too few hosts are up, and no booting host could complete even with all of them. */
  ghost predicate Wedged(net: Network) {
    && |UpHosts(net)| < Treshold(|net|)
    && forall h :: 0 <= h < |net| && net[h].Booting? ==> |net[h].collected + UpHosts(net)| < Treshold(|net|)
  }

  lemma WedgedStaysWedged(net: Network, s: Step)
    requires Wedged(net) && Enabled(net, s)
    ensures !s.Finish? && Wedged(Next(net, s)) && UpHosts(Next(net, s)) <= UpHosts(net)
  {
    var up, net' := UpHosts(net), Next(net, s);
    if s.Finish? {
      Quorum.SubsetSize(net[s.host].collected, net[s.host].collected + up);
      assert false;
    }
    StepKeepsUpBelow(net, s);
    Quorum.SubsetSize(UpHosts(net'), up);
    forall h | 0 <= h < |net'| && net'[h].Booting?
      ensures |net'[h].collected + UpHosts(net')| < Treshold(|net'|)
    {
      hide UpHosts;
      if net[h].Booting? {
        Quorum.SubsetSize(net'[h].collected + UpHosts(net'), net[h].collected + up);
      } else {
        assert net'[h].collected + UpHosts(net') == UpHosts(net');
      }
    }
  }

  lemma StepKeepsUpBelow(net: Network, s: Step)
    requires Enabled(net, s) && !s.Finish?
    ensures UpHosts(Next(net, s)) <= UpHosts(net)
  {
  }

  /** From a wedged network no host completes its boot in any continuation, and the hosts that are up
      only become fewer. */
  lemma {:induction false} WedgedForever(net: Network, steps: seq<Step>, net': Network)
    requires Wedged(net) && Runs(net, steps, net')
    ensures Wedged(net') && UpHosts(net') <= UpHosts(net)
    ensures !Finishes(steps)
    decreases |steps|
  {
    if steps != [] {
      WedgedStaysWedged(net, steps[0]);
      WedgedForever(Next(net, steps[0]), steps[1..], net');
      forall k | 0 <= k < |steps|
        ensures !steps[k].Finish?
      {
        if k > 0 {
          assert steps[k] == steps[1..][k - 1];
        }
      }
    }
  }

  /** In some continuation some host completes a boot. */
  ghost predicate CanFinish(net: Network) {
    exists steps, net' :: Runs(net, steps, net') && Finishes(steps)
  }

  /** The threshold is sharp: some host can still complete a boot in some continuation exactly if the
      network is not wedged. */
  lemma SomeoneCanFinishIffNotWedged(net: Network)
    requires NetworkValid(net) && |net| >= 2
    ensures !Wedged(net) <==> CanFinish(net)
  {
    hide Runs, Wedged, Finishes, NetworkValid;
    if Wedged(net) {
      forall steps, net' | Runs(net, steps, net')
        ensures !Finishes(steps)
      {
        WedgedForever(net, steps, net');
      }
    } else {
      var steps, net' := FinishSomeone(net);
      assert Runs(net, steps, net') && Finishes(steps);
    }
  }

  lemma FinishSomeone(net: Network) returns (steps: seq<Step>, net': Network)
    requires NetworkValid(net) && !Wedged(net) && |net| >= 2
    ensures Runs(net, steps, net') && Finishes(steps)
  {
    if h :| 0 <= h < |net| && net[h].Booting? && |net[h].collected + UpHosts(net)| >= Treshold(|net|) {
      steps, net' := FinishBooting(net, h);
    } else if AllUp(net) {
      steps := RestartOnce(net, 0);
      net' := net;
    } else {
      var h :| 0 <= h < |net| && !net[h].Up?;
      if net[h].Booting? {
        Quorum.SubsetSize(UpHosts(net), net[h].collected + UpHosts(net));
        assert false;
      }
      steps, net' := BootFromDown(net, h);
    }
  }

  /** Prefixing a run with one more step. */
  lemma RunWith(net: Network, s: Step, rest: seq<Step>, net': Network)
    requires Enabled(net, s) && Runs(Next(net, s), rest, net')
    ensures Runs(net, [s] + rest, net')
    ensures Finishes(rest) ==> Finishes([s] + rest)
    ensures BootOnly(rest) && !s.Stop? ==> BootOnly([s] + rest)
  {
    assert ([s] + rest)[1..] == rest;
    if k :| 0 <= k < |rest| && rest[k].Finish? {
      assert ([s] + rest)[k + 1] == rest[k];
    }
  }

  /** A stopped host boots while at least t others are up. */
  lemma BootFromDown(net: Network, h: nat) returns (steps: seq<Step>, net': Network)
    requires h < |net| && net[h].Down? && |UpHosts(net)| >= Treshold(|net|)
    ensures Runs(net, steps, net') && BootOnly(steps) && Finishes(steps) && net' == net[h := Up]
  {
    var net1 := Next(net, Start(h));
    assert UpHosts(net1) == UpHosts(net);
    assert net1[h].collected + UpHosts(net1) == UpHosts(net1);
    var rest;
    rest, net' := FinishBooting(net1, h);
    RunWith(net, Start(h), rest, net');
    steps := [Start(h)] + rest;
  }

  /** A booting host that could reach t with the hosts now up does so. */
  lemma {:induction false} FinishBooting(net: Network, h: nat) returns (steps: seq<Step>, net': Network)
    requires h < |net| && net[h].Booting? && |net[h].collected + UpHosts(net)| >= Treshold(|net|)
    ensures Runs(net, steps, net') && BootOnly(steps) && net' == net[h := Up]
    ensures Finishes(steps)
    decreases |UpHosts(net) - net[h].collected|
  {
    hide UpHosts, Treshold;
    var c := net[h].collected;
    if |c| >= Treshold(|net|) {
      steps, net' := [Finish(h)], Next(net, Finish(h));
      assert steps[1..] == [];
    } else {
      hide Runs, BootOnly, Finishes;
      var p := AskableHost(net, h);
      AskStep(net, h, p);
      var rest;
      rest, net' := FinishBooting(Next(net, Ask(h, p)), h);
      steps := [Ask(h, p)] + rest;
      RunWith(net, Ask(h, p), rest, net');
    }
  }

  lemma AskableHost(net: Network, h: nat) returns (p: nat)
    requires h < |net| && net[h].Booting? && |net[h].collected + UpHosts(net)| >= Treshold(|net|) > |net[h].collected|
    ensures p in UpHosts(net) && p !in net[h].collected
  {
    var c, up := net[h].collected, UpHosts(net);
    assert up <= c ==> c + up == c;
    var q :| q in up && q !in c;
    p := q;
  }

  /** One answered question. */
  lemma AskStep(net: Network, h: nat, p: nat)
    requires h < |net| && net[h].Booting? && p in UpHosts(net) && p !in net[h].collected
    requires |net[h].collected| < Treshold(|net|)
    ensures Enabled(net, Ask(h, p))
    ensures var net1 := Next(net, Ask(h, p));
      && net1[h] == Booting(net[h].collected + {p}) && net1[h := Up] == net[h := Up] && UpHosts(net1) == UpHosts(net)
      && net1[h].collected + UpHosts(net1) == net[h].collected + UpHosts(net)
      && |UpHosts(net1) - net1[h].collected| < |UpHosts(net) - net[h].collected|
  {
    var net1 := Next(net, Ask(h, p));
    assert UpHosts(net1) == UpHosts(net);
    assert UpHosts(net1) - net1[h].collected == (UpHosts(net) - net[h].collected) - {p};
  }

  // ---------- restarts ----------

  lemma StopLosesOne(net: Network, h: nat)
    requires h < |net|
    ensures |UpHosts(Next(net, Stop(h)))| == |UpHosts(net)| - if net[h].Up? then 1 else 0
    ensures UpHosts(Next(net, Stop(h))) == UpHosts(net) - {h}
  {
    assert UpHosts(Next(net, Stop(h))) == UpHosts(net) - {h};
  }

  /** No boot step is possible. */
  ghost predicate Settled(net: Network) {
    forall s :: Enabled(net, s) ==> s.Stop?
  }

  /** Restarting one host while all others stay up always completes: in whatever order the boot steps
      come, there are at most n + 2 of them, and when none is left every host is up. */
  lemma {:induction false} RestartCompletes(net: Network, h: nat, steps: seq<Step>, net': Network)
    requires h < |net| && AllUp(net) && |net| >= 2
    requires Runs(Next(net, Stop(h)), steps, net') && BootOnly(steps)
    ensures |steps| <= |net| + 2
    ensures Settled(net') ==> net' == net
    ensures !Settled(net') ==> exists s :: Enabled(net', s) && !s.Stop?
  {
    hide Runs, Next;
    var net1 := Stopped(net, h);
    RunLength(net1, steps, net');
    if Settled(net') {
      MaximalBootRunEndsAllUp(net1, steps, net');
      RunKeepsSize(net1, steps, net');
    }
  }

  /** The network right after a stop in an all-up network. */
  lemma Stopped(net: Network, h: nat) returns (net1: Network)
    requires h < |net| && AllUp(net) && |net| >= 2
    ensures net1 == Next(net, Stop(h)) && |net1| == |net| && NetworkValid(net1)
    ensures |UpHosts(net1)| >= Treshold(|net|)
    ensures TotalLeft(net1, |net|) == |net| + 2
  {
    net1 := Next(net, Stop(h));
    StopLosesOne(net, h);
    assert UpHosts(net) == Hosts(|net|);
    TotalLeftUpdate(net, h, Down, |net|);
    AllUpNothingLeft(net, |net|);
  }

  lemma {:induction false} AllUpNothingLeft(net: Network, n: nat)
    requires AllUp(net)
    ensures TotalLeft(net, n) == 0
  {
    if net != [] {
      AllUpNothingLeft(net[1..], n);
    }
  }

  /** Boot steps alone come to an end. */
  lemma {:induction false} RunLength(net: Network, steps: seq<Step>, net': Network)
    requires NetworkValid(net) && Runs(net, steps, net') && BootOnly(steps)
    ensures |steps| <= TotalLeft(net, |net|)
    decreases |steps|
  {
    if steps == [] {
      TotalIsNonNegative(net);
    } else {
      NextKeepsValid(net, steps[0]);
      BootStepDecreases(net, steps[0]);
      assert forall k :: 0 <= k < |steps[1..]| ==> steps[1..][k] == steps[k + 1];
      RunLength(Next(net, steps[0]), steps[1..], net');
    }
  }

  lemma {:induction false} RunKeepsSize(net: Network, steps: seq<Step>, net': Network)
    requires Runs(net, steps, net')
    ensures |net'| == |net|
    decreases |steps|
  {
    if steps != [] {
      RunKeepsSize(Next(net, steps[0]), steps[1..], net');
    }
  }

  /** Hosts are restarted one after the other: each is stopped only while every host is up. */
  ghost predicate InTurn(net: Network, steps: seq<Step>, net': Network)
    decreases |steps|
  {
    if steps == [] then net' == net
    else Enabled(net, steps[0]) && (steps[0].Stop? ==> AllUp(net)) && InTurn(Next(net, steps[0]), steps[1..], net')
  }

  /** A network on its way through such restarts: all but one host are up. */
  ghost predicate AtMostOneDown(net: Network) {
    NetworkValid(net) && |UpHosts(net)| >= |net| - 1
  }

  /** Restarting hosts one after the other always completes: at every moment of every such run, of
      whatever length and over whatever hosts, at most one host is not up, and as long as one is not, a
      boot step is possible; so wherever no boot step is left every host is up. */
  lemma {:induction false} RestartsInTurnComplete(net: Network, steps: seq<Step>, net': Network)
    requires AtMostOneDown(net) && |net| >= 2 && InTurn(net, steps, net')
    ensures |net'| == |net| && AtMostOneDown(net')
    ensures Settled(net') <==> AllUp(net')
    decreases |steps|
  {
    hide Next, Enabled, AtMostOneDown, AllUp, Settled;
    if steps == [] {
      OneDownIsNotStuck(net);
    } else {
      if steps[0].Stop? {
        StopInTurn(net, steps[0]);
      } else {
        BootInTurn(net, steps[0]);
      }
      RestartsInTurnComplete(Next(net, steps[0]), steps[1..], net');
    }
  }

  lemma OneDownIsNotStuck(net: Network)
    requires AtMostOneDown(net) && |net| >= 2
    ensures Settled(net) <==> AllUp(net)
  {
    if !AllUp(net) {
      var h :| 0 <= h < |net| && !net[h].Up?;
      var s := MajorityIsNotStuck(net, h);
    }
  }

  lemma StopInTurn(net: Network, s: Step)
    requires AllUp(net) && |net| >= 2 && s.Stop? && Enabled(net, s)
    ensures AtMostOneDown(Next(net, s))
  {
    StopLosesOne(net, s.host);
    assert UpHosts(net) == Hosts(|net|);
  }

  lemma BootInTurn(net: Network, s: Step)
    requires AtMostOneDown(net) && !s.Stop? && Enabled(net, s)
    ensures AtMostOneDown(Next(net, s))
  {
    NextKeepsValid(net, s);
    BootStepKeepsUp(net, s);
  }

  /** The hosts stopped in a run, in order. */
  function StopsOf(steps: seq<Step>): (hosts: seq<nat>) {
    if steps == [] then [] else StopOf(steps[0]) + StopsOf(steps[1..])
  }

  function StopOf(s: Step): seq<nat> {
    if s.Stop? then [s.host] else []
  }

  lemma {:induction false} StopsOfConcat(a: seq<Step>, b: seq<Step>)
    ensures StopsOf(a + b) == StopsOf(a) + StopsOf(b)
  {
    if a == [] {
      assert a + b == b;
    } else {
      hide StopOf;
      assert (a + b)[1..] == a[1..] + b;
      StopsOfConcat(a[1..], b);
      Associate(StopOf(a[0]), StopsOf(a[1..]), StopsOf(b));
    }
  }

  lemma Associate(x: seq<nat>, y: seq<nat>, z: seq<nat>)
    ensures x + (y + z) == (x + y) + z
  {
  }

  lemma {:induction false} BootRunInTurn(net: Network, steps: seq<Step>, net': Network)
    requires Runs(net, steps, net') && BootOnly(steps)
    ensures InTurn(net, steps, net') && StopsOf(steps) == []
    decreases |steps|
  {
    if steps != [] {
      assert forall k :: 0 <= k < |steps[1..]| ==> steps[1..][k] == steps[k + 1];
      BootRunInTurn(Next(net, steps[0]), steps[1..], net');
    }
  }

  /** One such restart exists for every host. */
  lemma RestartOnce(net: Network, h: nat) returns (steps: seq<Step>)
    requires h < |net| && AllUp(net) && |net| >= 2
    ensures Runs(net, steps, net) && Finishes(steps)
    ensures InTurn(net, steps, net) && StopsOf(steps) == [h]
  {
    hide Next;
    var net1 := Stopped(net, h);
    assert net1 == net[h := Down] by { StopDown(net, h); }
    var rest, net' := BootFromDown(net1, h);
    assert net' == net;
    RunWith(net, Stop(h), rest, net);
    BootRunInTurn(net1, rest, net);
    steps := [Stop(h)] + rest;
    assert steps[1..] == rest;
  }

  lemma StopDown(net: Network, h: nat)
    requires h < |net|
    ensures Next(net, Stop(h)) == net[h := Down]
  {
  }

  /** Any list of hosts can be restarted in turn: some run stops exactly those hosts, in that order,
      each only while every host is up, and ends with every host up. */
  lemma {:induction false} RestartsOneAtATime(net: Network, hosts: seq<nat>) returns (steps: seq<Step>)
    requires AllUp(net) && |net| >= 2 && forall i :: 0 <= i < |hosts| ==> hosts[i] < |net|
    ensures InTurn(net, steps, net) && StopsOf(steps) == hosts
    decreases |hosts|
  {
    hide Runs, Next, AllUp;
    if hosts == [] {
      return [];
    }
    var first := RestartOnce(net, hosts[0]);
    var rest := RestartsOneAtATime(net, hosts[1..]);
    InTurnInSequence(net, first, net, rest, net);
    StopsOfConcat(first, rest);
    steps := first + rest;
    assert [hosts[0]] + hosts[1..] == hosts;
  }

  lemma {:induction false} InTurnInSequence(net: Network, first: seq<Step>, mid: Network, second: seq<Step>,
                                            net': Network)
    requires InTurn(net, first, mid) && InTurn(mid, second, net')
    ensures InTurn(net, first + second, net')
    decreases |first|
  {
    if first == [] {
      assert first + second == second;
    } else {
      assert (first + second)[1..] == first[1..] + second;
      InTurnInSequence(Next(net, first[0]), first[1..], mid, second, net');
    }
  }

  /** The network with the hosts of a group stopped together. */
  function StopTogether(net: Network, group: set<int>): Network {
    seq(|net|, i requires 0 <= i < |net| => if i in group then Down else net[i])
  }

  /** Hosts restarted together recover exactly if at least t others stay up: then every boot run that
      cannot go on ends with all hosts up, and one that does exists; with one more stopped the network is
      wedged for good. */
  lemma RestartTogetherIffMajorityStays(net: Network, group: set<int>)
    requires AllUp(net) && |net| >= 1 && group <= Hosts(|net|)
    ensures var stopped := StopTogether(net, group);
      && (|net| - |group| >= (|net| - 1) / 2 + 1 ==>
          exists steps, net' :: Runs(stopped, steps, net') && BootOnly(steps) && AllUp(net'))
      && (|net| - |group| >= (|net| - 1) / 2 + 1 ==>
            forall steps, net' :: Runs(stopped, steps, net') && BootOnly(steps) && Settled(net') ==> AllUp(net'))
      && (|net| - |group| < (|net| - 1) / 2 + 1 ==> Wedged(stopped))
  {
    hide Runs, BootOnly, Settled;
    var stopped := StopTogether(net, group);
    var up := UpHosts(stopped);
    assert up == Hosts(|net|) - group;
    assert Hosts(|net|) == up + group;
    assert |up| == |net| - |group|;
    if |up| >= Treshold(|net|) {
      var steps0, net0 := MajorityBringsAllUp(stopped);
      forall steps, net' | Runs(stopped, steps, net') && BootOnly(steps) && Settled(net')
        ensures AllUp(net')
      {
        SettledRunEndsAllUp(stopped, steps, net');
      }
    }
  }

  lemma SettledRunEndsAllUp(net: Network, steps: seq<Step>, net': Network)
    requires NetworkValid(net) && |UpHosts(net)| >= Treshold(|net|)
    requires Runs(net, steps, net') && BootOnly(steps) && Settled(net')
    ensures AllUp(net')
  {
    MaximalBootRunEndsAllUp(net, steps, net');
  }
}
