/** Any number of enclaves that seal boxes for each other and put what reaches them.  Boxes travel: one is
    sealed from its sender's store at one time and put later, after other steps, any number of times,
    alone or with others, or never (node/enclave/src/secrets/mod.rs). */
module Gossip {
  import opened SealedBoxes
  import opened Enclaves
  import opened Replication
  import Provenance

  /** A box under way, and everything its sender had heard when it sealed it. */
  datatype Flight = Flight(box: SecretsBox, heard: set<SecretRecord>)

  /** `heard[e]` is history: the entries that arose at enclave `e`, or reached it through others. */
  datatype Net = Net(enclaves: seq<Provenance.Enclave>, flights: seq<Flight>, heard: seq<set<SecretRecord>>)

  /** Enclave `at` performs `action`; for a put, `mail` names the flights its boxes came by. */
  datatype Step = Step(at: nat, action: Provenance.Action, mail: seq<nat>)

  // ---------- What is heard ----------

  function Entries(s: Storage): set<SecretRecord> {
    set id | id in s :: RecordOf(s, id)
  }

  /** Entries that a step created. */
  function Created(before: Storage, after: Storage): set<SecretRecord> {
    set id | id in after && id !in before :: RecordOf(after, id)
  }

  /** Records that arrive live bring what their sender had heard about their ids. */
  ghost function Brought(records: seq<SecretRecord>, heard: set<SecretRecord>, now: nat): set<SecretRecord> {
    set h | h in heard && exists r :: r in records && r.id == h.id && Live(r.expiry, now)
  }

  /** What the bundles of a put bring, each according to what was heard when its box was sealed. */
  ghost function BroughtByPut(m: KeyPair, auths: Authorizations, bundles: seq<Bundle>, sources: seq<set<SecretRecord>>,
                              verify: Verifier, now: nat)
    : set<SecretRecord>
    requires |sources| == |bundles|
  {
    if bundles == [] then {}
    else
      Brought(RecordsOf(m, auths, bundles[0], verify, now), sources[0], now)
      + BroughtByPut(m, auths, bundles[1..], sources[1..], verify, now)
  }

  // ---------- Steps ----------

  ghost predicate Enabled(members: seq<KeyPair>, net: Net, s: Step) {
    && s.at < |members| == |net.enclaves| == |net.heard| && Provenance.ActionOk(s.action)
    && (s.action.Put? ==>
          && |s.mail| == |s.action.bundles|
          && forall i :: 0 <= i < |s.mail| ==>
               s.mail[i] < |net.flights| && s.action.bundles[i].box == net.flights[s.mail[i]].box)
  }

  ghost function Sources(net: Net, mail: seq<nat>): (r: seq<set<SecretRecord>>)
    requires forall i :: 0 <= i < |mail| ==> mail[i] < |net.flights|
    ensures |r| == |mail| && forall i :: 0 <= i < |r| ==> r[i] == net.flights[mail[i]].heard
  {
    seq(|mail|, i requires 0 <= i < |mail| => net.flights[mail[i]].heard)
  }

  ghost function HeardAfter(members: seq<KeyPair>, net: Net, s: Step): set<SecretRecord>
    requires Enabled(members, net, s)
  {
    var m, e, heard := members[s.at], net.enclaves[s.at], net.heard[s.at];
    match s.action
    case Put(now, bundles, verify) => heard + BroughtByPut(m, e.auths, bundles, Sources(net, s.mail), verify, now)
    case GenerateNew(_, _, _, _) =>
      heard + Created(e.storage, Provenance.Next(m, e, s.action).storage)
    case _ => heard
  }

  ghost function FlightsAfter(members: seq<KeyPair>, net: Net, s: Step): seq<Flight>
    requires Enabled(members, net, s)
  {
    var m, e := members[s.at], net.enclaves[s.at];
    match s.action
    case Seal(now, requests, requester, nonce, verify) =>
      (match SealFor(m, e.storage, e.auths, requests, requester, verify, nonce, now)
       case Some(box) => net.flights + [Flight(box, net.heard[s.at])]
       case None => net.flights)
    case _ => net.flights
  }

  ghost function Next(members: seq<KeyPair>, net: Net, s: Step): Net
    requires Enabled(members, net, s)
  {
    var m := members[s.at];
    Net(net.enclaves[s.at := Provenance.Next(m, net.enclaves[s.at], s.action)],
        FlightsAfter(members, net, s), net.heard[s.at := HeardAfter(members, net, s)])
  }

  /** A run from any stores and approvals, with nothing under way; each step has a time of its own. */
  ghost predicate IsRun(members: seq<KeyPair>, nets: seq<Net>, steps: seq<Step>) {
    && |nets| == |steps| + 1 && nets[0].flights == []
    && |nets[0].enclaves| == |nets[0].heard| == |members|
    && (forall e :: 0 <= e < |members| ==> nets[0].heard[e] == Entries(nets[0].enclaves[e].storage))
    && forall i :: 0 <= i < |steps| ==>
        Enabled(members, nets[i], steps[i]) && nets[i + 1] == Next(members, nets[i], steps[i])
  }

  // ---------- Newest among what was heard ----------

  /** For `id`, the store holds a newest of the entries heard, and nothing else. */
  ghost predicate NewestHeard(s: Storage, heard: set<SecretRecord>, id: SecretId) {
    && (id in s <==> exists r :: r in heard && r.id == id)
    && (id in s ==>
          && RecordOf(s, id) in heard
          && forall r :: r in heard && r.id == id ==> r.generation <= s[id].generation)
  }

  ghost predicate HoldsNewest(s: Storage, heard: set<SecretRecord>) {
    forall id :: NewestHeard(s, heard, id)
  }

  /** Every record in `records` is the newest its sender had heard for its id. */
  ghost predicate NewestOf(records: seq<SecretRecord>, heard: set<SecretRecord>) {
    forall r :: r in records ==> r in heard && forall h :: h in heard && h.id == r.id ==> h.generation <= r.generation
  }

  ghost predicate FlightOk(box: SecretsBox, heard: set<SecretRecord>) {
    box.payload.Payload? && NewestOf(box.payload.ciphertext.plaintext, heard)
  }

  ghost predicate NetOk(net: Net) {
    && |net.heard| == |net.enclaves|
    && (forall e :: 0 <= e < |net.enclaves| ==> HoldsNewest(net.enclaves[e].storage, net.heard[e]))
    && (forall f :: 0 <= f < |net.flights| ==> FlightOk(net.flights[f].box, net.flights[f].heard))
  }

  /** Merging one box's records. */
  lemma MergeKeepsNewestHeard(s: Storage, heard: set<SecretRecord>, records: seq<SecretRecord>,
                              source: set<SecretRecord>, now: nat, id: SecretId)
    requires NewestHeard(s, heard, id) && NewestOf(records, source)
    ensures NewestHeard(Merge(s, records, now), heard + Brought(records, source, now), id)
  {
    var m, more := Merge(s, records, now), Brought(records, source, now);
    MergeKeepsNewest(s, records, now, id);
    if r :| r in records && r.id == id && Live(r.expiry, now) {
      assert Offered(records, now, id, Stored(r));
      assert r in more;
      if Offered(records, now, id, m[id]) {
        var q :| q in records && q.id == id && Live(q.expiry, now) && Stored(q) == m[id];
        assert q == RecordOf(m, id) && q in more;
      }
      assert forall h :: h in more && h.id == id ==> h.generation <= Stored(r).generation;
    } else {
      assert forall h :: h in more ==> h.id != id;
      assert forall t :: !Offered(records, now, id, t);
    }
  }

  lemma AcceptedAreSealed(own: KeyPair, auths: Authorizations, b: Bundle, verify: Verifier, now: nat,
                          heard: set<SecretRecord>)
    requires FlightOk(b.box, heard)
    ensures NewestOf(RecordsOf(own, auths, b, verify, now), heard)
  {
  }

  /** A put of any number of boxes. */
  lemma {:induction false} PutKeepsNewest(m: KeyPair, auths: Authorizations, bundles: seq<Bundle>,
                                          sources: seq<set<SecretRecord>>, verify: Verifier,
                                          s: Storage, heard: set<SecretRecord>, now: nat)
    requires |sources| == |bundles| && HoldsNewest(s, heard)
    requires forall i :: 0 <= i < |bundles| ==> FlightOk(bundles[i].box, sources[i])
    ensures HoldsNewest(Merge(s, Incoming(m, auths, bundles, verify, now), now),
                        heard + BroughtByPut(m, auths, bundles, sources, verify, now))
    decreases |bundles|
  {
    if bundles == [] {
      assert heard + {} == heard;
    } else {
      var records := RecordsOf(m, auths, bundles[0], verify, now);
      var rest := Incoming(m, auths, bundles[1..], verify, now);
      AcceptedAreSealed(m, auths, bundles[0], verify, now, sources[0]);
      var mid, known := Merge(s, records, now), heard + Brought(records, sources[0], now);
      forall id ensures NewestHeard(mid, known, id) {
        MergeKeepsNewestHeard(s, heard, records, sources[0], now, id);
      }
      PutKeepsNewest(m, auths, bundles[1..], sources[1..], verify, mid, known, now);
      assert Incoming(m, auths, bundles, verify, now) == records + rest;
      MergeAppend(s, records, rest, now);
      assert heard + BroughtByPut(m, auths, bundles, sources, verify, now) ==
        known + BroughtByPut(m, auths, bundles[1..], sources[1..], verify, now);
    }
  }

  lemma GenerateKeepsNewest(m: KeyPair, e: Provenance.Enclave, a: Provenance.Action, heard: set<SecretRecord>)
    requires a.GenerateNew? && Provenance.ActionOk(a) && HoldsNewest(e.storage, heard)
    ensures var after := Provenance.Next(m, e, a).storage;
      HoldsNewest(after, heard + Created(e.storage, after))
  {
    var after := Provenance.Next(m, e, a).storage;
    if a.self.Some? {
      Provenance.GenerateOnlyAdds(e.storage, e.auths, a.self.value, a.generated, a.entropy, a.now);
    }
    forall id ensures NewestHeard(after, heard + Created(e.storage, after), id) {
      assert NewestHeard(e.storage, heard, id);
      if id in after && id !in e.storage {
        assert RecordOf(after, id) in Created(e.storage, after);
      }
    }
  }

  lemma SealedIsNewest(m: KeyPair, e: Provenance.Enclave, a: Provenance.Action, heard: set<SecretRecord>)
    requires a.Seal? && HoldsNewest(e.storage, heard)
    ensures var box := SealFor(m, e.storage, e.auths, a.asked, a.requester, a.verify, a.nonce, a.now);
      box.Some? ==> FlightOk(box.value, heard)
  {
    var records := Released(e.storage, e.auths, a.requester, a.asked, a.now);
    forall r | r in records
      ensures r in heard && forall h :: h in heard && h.id == r.id ==> h.generation <= r.generation
    {
      ReleasedRecords(e.storage, e.auths, a.requester, a.asked, a.now, r);
      assert NewestHeard(e.storage, heard, r.id);
    }
  }

  lemma StepKeepsEnclave(members: seq<KeyPair>, net: Net, s: Step)
    requires NetOk(net) && Enabled(members, net, s)
    ensures var next := Next(members, net, s); HoldsNewest(next.enclaves[s.at].storage, next.heard[s.at])
  {
    var m, e, heard := members[s.at], net.enclaves[s.at], net.heard[s.at];
    match s.action
    case Put(now, bundles, verify) =>
      PutKeepsNewest(m, e.auths, bundles, Sources(net, s.mail), verify, e.storage, heard, now);
    case GenerateNew(_, _, _, _) => GenerateKeepsNewest(m, e, s.action, heard);
    case _ =>
  }

  lemma StepKeepsNet(members: seq<KeyPair>, net: Net, s: Step)
    requires NetOk(net) && Enabled(members, net, s)
    ensures NetOk(Next(members, net, s))
  {
    StepKeepsEnclave(members, net, s);
    if s.action.Seal? {
      SealedIsNewest(members[s.at], net.enclaves[s.at], s.action, net.heard[s.at]);
    }
  }

  lemma {:induction false} RunKeepsNet(members: seq<KeyPair>, nets: seq<Net>, steps: seq<Step>, k: nat)
    requires IsRun(members, nets, steps) && k <= |steps|
    ensures NetOk(nets[k]) && |nets[k].enclaves| == |members|
  {
    if k == 0 {
      forall e | 0 <= e < |members| ensures HoldsNewest(nets[0].enclaves[e].storage, nets[0].heard[e]) {
        StartsNewest(nets[0].enclaves[e].storage);
      }
    } else {
      RunKeepsNet(members, nets, steps, k - 1);
      StepKeepsNet(members, nets[k - 1], steps[k - 1]);
    }
  }

  lemma StartsNewest(s: Storage)
    ensures HoldsNewest(s, Entries(s))
  {
    forall id ensures NewestHeard(s, Entries(s), id) {
      if id in s {
        assert RecordOf(s, id) in Entries(s);
      }
    }
  }

  /** In every run of every network: each enclave holds, for each id, exactly a newest of the entries that
      arose with it or that were known, when the box was sealed, to those whose boxes reached it. */
  lemma GossipSpreadsNewest(members: seq<KeyPair>, nets: seq<Net>, steps: seq<Step>, k: nat, e: nat, id: SecretId)
    requires IsRun(members, nets, steps) && k <= |steps| && e < |members|
    ensures |nets[k].enclaves| == |nets[k].heard| == |members|
    ensures NewestHeard(nets[k].enclaves[e].storage, nets[k].heard[e], id)
  {
    RunKeepsNet(members, nets, steps, k);
    assert HoldsNewest(nets[k].enclaves[e].storage, nets[k].heard[e]);
  }

  /** So enclaves that have heard the same about an id hold the same, if equal timestamps mean equal entries. */
  lemma SameHearingSameEntry(members: seq<KeyPair>, nets: seq<Net>, steps: seq<Step>, k: nat, e: nat, f: nat,
                             id: SecretId)
    requires IsRun(members, nets, steps) && k <= |steps| && e < |members| == |nets[k].heard| && f < |members|
    requires forall r: SecretRecord :: r.id == id ==> (r in nets[k].heard[e] <==> r in nets[k].heard[f])
    requires forall p, q :: p in nets[k].heard[e] && q in nets[k].heard[e] ==>
      p.id == q.id == id && p.generation == q.generation ==> p == q
    ensures |nets[k].enclaves| == |members|
    ensures var s, t := nets[k].enclaves[e].storage, nets[k].enclaves[f].storage;
      (id in s <==> id in t) && (id in s ==> s[id] == t[id])
  {
    GossipSpreadsNewest(members, nets, steps, k, e, id);
    GossipSpreadsNewest(members, nets, steps, k, f, id);
    var s, t := nets[k].enclaves[e].storage, nets[k].enclaves[f].storage;
    if id in s {
      var r :| r in nets[k].heard[e] && r.id == id;
      assert r in nets[k].heard[f];
      assert RecordOf(s, id) == RecordOf(t, id);
    }
  }

  // ---------- What is heard lasts, and arose somewhere ----------

  lemma {:induction false} HeardLasts(members: seq<KeyPair>, nets: seq<Net>, steps: seq<Step>, i: nat, k: nat, e: nat)
    requires IsRun(members, nets, steps) && i <= k <= |steps| && e < |members|
    ensures |nets[i].heard| == |nets[k].heard| == |members| && nets[i].heard[e] <= nets[k].heard[e]
    decreases k - i
  {
    RunKeepsNet(members, nets, steps, k);
    if i < k {
      HeardLasts(members, nets, steps, i, k - 1, e);
      assert nets[k] == Next(members, nets[k - 1], steps[k - 1]);
    }
  }

  /** What an enclave has heard once, it never falls behind of: it holds that id, as new or newer. */
  lemma NeverBehind(members: seq<KeyPair>, nets: seq<Net>, steps: seq<Step>, i: nat, k: nat, e: nat, r: SecretRecord)
    requires IsRun(members, nets, steps) && i <= k <= |steps| && e < |members| == |nets[i].heard|
    requires r in nets[i].heard[e]
    ensures |nets[k].enclaves| == |members|
    ensures var s := nets[k].enclaves[e].storage; r.id in s && s[r.id].generation >= r.generation
  {
    HeardLasts(members, nets, steps, i, k, e);
    GossipSpreadsNewest(members, nets, steps, k, e, r.id);
  }

  /** `r` was in some store at the start, or was generated by a step before step `k`. */
  ghost predicate Arose(nets: seq<Net>, steps: seq<Step>, k: nat, r: SecretRecord) {
    || (exists e :: nets != [] && 0 <= e < |nets[0].enclaves| && r in Entries(nets[0].enclaves[e].storage))
    || (exists i :: 0 <= i < k && GeneratedAt(nets, steps, i, r))
  }

  ghost predicate GeneratedAt(nets: seq<Net>, steps: seq<Step>, i: nat, r: SecretRecord) {
    && i < |steps| && i + 1 < |nets| && steps[i].action.GenerateNew?
    && steps[i].at < |nets[i].enclaves| && steps[i].at < |nets[i + 1].enclaves|
    && r in Created(nets[i].enclaves[steps[i].at].storage, nets[i + 1].enclaves[steps[i].at].storage)
  }

  ghost predicate AllArose(nets: seq<Net>, steps: seq<Step>, k: nat, net: Net) {
    && (forall e, r :: 0 <= e < |net.heard| && r in net.heard[e] ==> Arose(nets, steps, k, r))
    && (forall f, r :: 0 <= f < |net.flights| && r in net.flights[f].heard ==> Arose(nets, steps, k, r))
  }

  lemma {:induction false} BroughtFromSources(m: KeyPair, auths: Authorizations, bundles: seq<Bundle>,
                                              sources: seq<set<SecretRecord>>, verify: Verifier, now: nat,
                                                  r: SecretRecord)
    requires |sources| == |bundles| && r in BroughtByPut(m, auths, bundles, sources, verify, now)
    ensures exists i :: 0 <= i < |sources| && r in sources[i]
    decreases |bundles|
  {
    if r !in sources[0] {
      BroughtFromSources(m, auths, bundles[1..], sources[1..], verify, now, r);
      var i :| 0 <= i < |sources| - 1 && r in sources[1..][i];
      assert r in sources[i + 1];
    }
  }

  lemma {:induction false} HeardArose(members: seq<KeyPair>, nets: seq<Net>, steps: seq<Step>, k: nat)
    requires IsRun(members, nets, steps) && k <= |steps|
    ensures AllArose(nets, steps, k, nets[k])
  {
    RunKeepsNet(members, nets, steps, k);
    if k > 0 {
      HeardArose(members, nets, steps, k - 1);
      RunKeepsNet(members, nets, steps, k - 1);
      var net, s := nets[k - 1], steps[k - 1];
      forall r | r in HeardAfter(members, net, s) ensures Arose(nets, steps, k, r) {
        NewlyHeardArose(members, nets, steps, k - 1, r);
      }
      forall r | Arose(nets, steps, k - 1, r) ensures Arose(nets, steps, k, r) {
      }
    }
  }

  lemma NewlyHeardArose(members: seq<KeyPair>, nets: seq<Net>, steps: seq<Step>, k: nat, r: SecretRecord)
    requires IsRun(members, nets, steps) && k < |steps| && AllArose(nets, steps, k, nets[k])
    requires r in HeardAfter(members, nets[k], steps[k])
    ensures Arose(nets, steps, k + 1, r)
  {
    var net, s := nets[k], steps[k];
    if r !in net.heard[s.at] {
      if s.action.Put? {
        BroughtFromSources(members[s.at], net.enclaves[s.at].auths, s.action.bundles, Sources(net, s.mail),
                           s.action.verify, s.action.now, r);
        var i :| 0 <= i < |s.mail| && r in Sources(net, s.mail)[i];
        assert r in net.flights[s.mail[i]].heard;
        assert Arose(nets, steps, k, r);
      } else {
        assert GeneratedAt(nets, steps, k, r);
      }
    } else {
      assert Arose(nets, steps, k, r);
    }
  }

  /** Nothing is made up on the way: what an enclave holds was in a store at the start or was generated by
      an enclave of the network. */
  lemma HeldArose(members: seq<KeyPair>, nets: seq<Net>, steps: seq<Step>, k: nat, e: nat, id: SecretId)
    requires IsRun(members, nets, steps) && k <= |steps| && e < |members| == |nets[k].enclaves|
    requires id in nets[k].enclaves[e].storage
    ensures Arose(nets, steps, k, RecordOf(nets[k].enclaves[e].storage, id))
  {
    GossipSpreadsNewest(members, nets, steps, k, e, id);
    HeardArose(members, nets, steps, k);
  }
}
