/** Several devices fed by the one static generator: what each reader's byte stream contains. */
module IrqSystem {
  import opened Bytes
  import opened CharSource
  import opened IrqMachine
  import opened IrqTheorems

  /** The log records every generated byte with the device whose handler stored it. Handlers of
      different devices are serialised at the generator call. */
  datatype Sys = Sys(devs: seq<Dev>, gen: GenState, log: seq<(nat, byte)>)

  datatype SysAction = On(i: nat, a: Action)

  function Boot(lens: seq<nat>): Sys
    requires forall i | 0 <= i < |lens| :: lens[i] >= 2
  {
    Sys(seq(|lens|, i requires 0 <= i < |lens| => Init(lens[i])), BEFORE_A, [])
  }

  predicate SysEnabled(s: Sys, x: SysAction) {
    && x.i < |s.devs| && Enabled(s.devs[x.i], x.a)
    && (x.a.TickStore? ==> x.a.c == NextChar(s.gen))
  }

  function SysApply(s: Sys, x: SysAction): Sys
    requires SysEnabled(s, x)
  {
    var devs := s.devs[x.i := Apply(s.devs[x.i], x.a)];
    if x.a.TickStore? then Sys(devs, NextChar(s.gen), s.log + [(x.i, x.a.c)]) else s.(devs := devs)
  }

  predicate SysRunOk(s: Sys, xs: seq<SysAction>)
    decreases |xs|
  {
    xs == [] || (SysEnabled(s, xs[0]) && SysRunOk(SysApply(s, xs[0]), xs[1..]))
  }

  function SysRun(s: Sys, xs: seq<SysAction>): Sys
    requires SysRunOk(s, xs)
    decreases |xs|
  {
    if xs == [] then s else SysRun(SysApply(s, xs[0]), xs[1..])
  }

  /** The subsequence of the log that device i stored. */
  function Own(log: seq<(nat, byte)>, i: nat): seq<byte> {
    if log == [] then []
    else Own(log[..|log| - 1], i) + if log[|log| - 1].0 == i then [log[|log| - 1].1] else []
  }

  ghost predicate SysInv(s: Sys) {
    && s.gen == StateAfter(|s.log|)
    && (forall k | 0 <= k < |s.log| :: s.log[k].1 == Letter(k) && s.log[k].0 < |s.devs|)
    && (forall i | 0 <= i < |s.devs| :: Inv(s.devs[i]) && s.devs[i].accepted == Own(s.log, i))
  }

  lemma SysStepKeepsInv(s: Sys, x: SysAction)
    requires SysInv(s) && SysEnabled(s, x)
    ensures SysInv(SysApply(s, x)) && |SysApply(s, x).devs| == |s.devs|
  {
    var s' := SysApply(s, x);
    ActionKeepsInv(s.devs[x.i], x.a);
    if x.a.TickStore? {
      NextIsLetter(|s.log|);
      assert s'.log[..|s.log|] == s.log;
      forall i | 0 <= i < |s'.devs|
        ensures s'.devs[i].accepted == Own(s'.log, i)
      {}
    } else {
      AcceptsOnlyAtStore(s.devs[x.i], x.a);
    }
  }

  lemma AcceptsOnlyAtStore(d: Dev, a: Action)
    requires Enabled(d, a) && !a.TickStore?
    ensures Apply(d, a).accepted == d.accepted
  {}

  lemma {:induction false} SysRunKeepsInv(s: Sys, xs: seq<SysAction>)
    requires SysInv(s) && SysRunOk(s, xs)
    ensures SysInv(SysRun(s, xs)) && |SysRun(s, xs).devs| == |s.devs|
    decreases |xs|
  {
    if xs != [] {
      SysStepKeepsInv(s, xs[0]);
      SysRunKeepsInv(SysApply(s, xs[0]), xs[1..]);
    }
  }

  lemma {:induction false} SoleOwner(log: seq<(nat, byte)>)
    requires forall k | 0 <= k < |log| :: log[k].0 == 0
    ensures |Own(log, 0)| == |log| && forall k | 0 <= k < |log| :: Own(log, 0)[k] == log[k].1
  {
    if log != [] {
      SoleOwner(log[..|log| - 1]);
    }
  }

  lemma BootHolds(lens: seq<nat>)
    requires forall k | 0 <= k < |lens| :: lens[k] >= 2
    ensures SysInv(Boot(lens))
  {
    forall k | 0 <= k < |lens|
      ensures Inv(Init(lens[k]))
    {
      InitHolds(lens[k]);
    }
  }

  lemma SysInvMeans(s: Sys, i: nat)
    requires SysInv(s) && i < |s.devs|
    ensures forall k | 0 <= k < |s.log| :: s.log[k].1 == LETTER_A + k % 26
    ensures Joined(s.devs[i].returned) <= Own(s.log, i)
  {
    assert forall k | 0 <= k < |s.log| :: s.log[k].1 == Letter(k);
    FifoPrefixes(s.devs[i]);
  }

  /** Merged over all devices the accepted bytes are the cyclic alphabet, however many expiries were
      dropped; each device's readers get, in order, a prefix of what that device stored. */
  lemma StreamsAreTheAlphabet(lens: seq<nat>, xs: seq<SysAction>, i: nat)
    requires forall k | 0 <= k < |lens| :: lens[k] >= 2
    requires SysRunOk(Boot(lens), xs) && i < |lens|
    ensures var s := SysRun(Boot(lens), xs);
            && |s.devs| == |lens|
            && (forall k | 0 <= k < |s.log| :: s.log[k].1 == 'A' as int + k % 26)
            && Joined(s.devs[i].returned) <= Own(s.log, i)
  {
    BootHolds(lens);
    SysRunKeepsInv(Boot(lens), xs);
    SysInvMeans(SysRun(Boot(lens), xs), i);
  }

  lemma SoleDevice(s: Sys)
    requires SysInv(s) && |s.devs| == 1
    ensures var got := Joined(s.devs[0].returned);
            forall k | 0 <= k < |got| :: got[k] == LETTER_A + k % 26
  {
    SysInvMeans(s, 0);
    SoleOwner(s.log);
  }

  /** With one device, byte k of the delivered stream is 'A' + k mod 26. */
  lemma OneDeviceReadsTheAlphabet(len: nat, xs: seq<SysAction>)
    requires len >= 2 && SysRunOk(Boot([len]), xs)
    ensures |SysRun(Boot([len]), xs).devs| == 1
    ensures var got := Joined(SysRun(Boot([len]), xs).devs[0].returned);
            forall k | 0 <= k < |got| :: got[k] == 'A' as int + k % 26
  {
    BootHolds([len]);
    SysRunKeepsInv(Boot([len]), xs);
    SoleDevice(SysRun(Boot([len]), xs));
  }
}
