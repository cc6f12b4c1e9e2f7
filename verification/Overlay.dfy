/** Profiles as overlays: which sources an activation may start and stop. */
module Overlays {
  import opened Options

  /** A declared source: its kind and name, and for files a path that overrides the name ("" if none). */
  datatype Ref = Ref(kind: string, name: string, path: string)

  datatype Profile = Profile(name: string, refs: seq<Ref>)

  /** A source that runs or has run. The owner is "" for the user's own. */
  datatype Rec = Rec(kind: string, name: string, open: bool, owner: string)

  const FILE := "file"
  const DOCKER := "docker"
  const STDIN := "stdin"

  function Ident(r: Ref): string {
    if r.kind == FILE && r.path != "" then r.path else r.name
  }

  function OwnerOf(profile: string): string {
    if profile == "" then "" else "profile:" + profile
  }

  /** Identity for the difference between two lists: kind and name, whatever the path. */
  predicate SameRef(a: Ref, b: Ref) {
    a.kind == b.kind && a.name == b.name
  }

  predicate Declared(r: Ref, refs: seq<Ref>) {
    exists q :: q in refs && SameRef(r, q)
  }

  function RefsMinus(a: seq<Ref>, b: seq<Ref>): seq<Ref> {
    if a == [] then [] else (if Declared(a[0], b) then [] else [a[0]]) + RefsMinus(a[1..], b)
  }

  lemma {:induction false} RefsMinusMeaning(a: seq<Ref>, b: seq<Ref>)
    ensures forall r :: r in RefsMinus(a, b) <==> r in a && !Declared(r, b)
    decreases |a|
  {
    if a != [] {
      RefsMinusMeaning(a[1..], b);
    }
  }

  lemma {:induction false} RefsMinusPush(a: seq<Ref>, r: Ref, b: seq<Ref>)
    ensures RefsMinus(a + [r], b) == RefsMinus(a, b) + if Declared(r, b) then [] else [r]
    decreases |a|
  {
    if a == [] {
      assert [r][1..] == [] && a + [r] == [r];
    } else {
      assert (a + [r])[1..] == a[1..] + [r];
      RefsMinusPush(a[1..], r, b);
    }
  }

  method Minus(a: seq<Ref>, b: seq<Ref>) returns (out: seq<Ref>)
    ensures out == RefsMinus(a, b)
  {
    out := [];
    var i := 0;
    while i < |a|
      invariant 0 <= i <= |a| && out == RefsMinus(a[..i], b)
    {
      var found := false;
      var j := 0;
      while j < |b| && !found
        invariant 0 <= j <= |b|
        invariant found <==> exists k :: 0 <= k < j && SameRef(a[i], b[k])
      {
        found := SameRef(a[i], b[j]);
        j := j + 1;
      }
      assert a[..i + 1] == a[..i] + [a[i]];
      RefsMinusPush(a[..i], a[i], b);
      if !found {
        out := out + [a[i]];
      }
      i := i + 1;
    }
    assert a[..i] == a;
  }

  /** Some ref asks for this source. */
  predicate Asked(refs: seq<Ref>, rec: Rec) {
    exists r :: r in refs && r.kind == rec.kind && Ident(r) == rec.name
  }

  /** What a removal takes away: open sources of that owner that some ref asks for. */
  predicate Removable(rec: Rec, refs: seq<Ref>, owner: string) {
    rec.open && rec.owner == owner && Asked(refs, rec)
  }

  /** At most one open source for a file or a container; owned sources are files or containers. */
  ghost predicate Deduped(srcs: map<nat, Rec>) {
    && (forall i, j ::
          && i in srcs && j in srcs && i != j && srcs[i].open && srcs[j].open
          && srcs[i].kind in {FILE, DOCKER} ==>
          !(srcs[i].kind == srcs[j].kind && srcs[i].name == srcs[j].name))
    && (forall i :: i in srcs && srcs[i].owner != "" ==> srcs[i].kind in {FILE, DOCKER})
  }

  /** What an activation does to the sources: exactly the removable ones go, all others stay as they are,
      and what is new is open, belongs to the new owner and was asked for. */
  ghost predicate Overlaid(before: map<nat, Rec>, after: map<nat, Rec>, gone: seq<Ref>, oldOwner: string,
                           added: seq<Ref>, newOwner: string)
  {
    && (forall i :: i in before ==> (i !in after <==> Removable(before[i], gone, oldOwner)))
    && (forall i :: i in before && i in after ==> after[i] == before[i])
    && (forall i :: i in after && i !in before ==>
        after[i].open && after[i].owner == newOwner && Asked(added, after[i]))
  }

  /** The user's own sources survive every activation untouched. */
  lemma UserSourcesSafe(before: map<nat, Rec>, after: map<nat, Rec>, gone: seq<Ref>, oldOwner: string, added: seq<Ref>,
                        newOwner: string, i: nat)
    requires Overlaid(before, after, gone, oldOwner, added, newOwner) && (oldOwner == "" ==> gone == [])
    requires i in before && before[i].owner == ""
    ensures i in after && after[i] == before[i]
  {
  }

  /** Owned sources that are open belong to the active profile and are asked for by it. */
  ghost predicate Tidy(srcs: map<nat, Rec>, profile: string, refs: seq<Ref>) {
    forall i :: i in srcs && srcs[i].open && srcs[i].owner != "" ==>
        srcs[i].owner == OwnerOf(profile) && Asked(refs, srcs[i])
  }

  /** The open owned sources that an activation neither removes nor finds declared and owned as the new
      profile wants them: none. Both guards can be checked before the call. */
  ghost predicate LeavesNothingBehind(before: map<nat, Rec>, oldName: string, oldRefs: seq<Ref>, newName: string,
                                      newRefs: seq<Ref>)
  {
    forall i :: i in before && before[i].open && before[i].owner != "" ==>
      || Removable(before[i], RefsMinus(oldRefs, newRefs), OwnerOf(oldName))
      || (before[i].owner == OwnerOf(newName) && Asked(newRefs, before[i]))
  }

  lemma AskedAmong(some: seq<Ref>, all: seq<Ref>, rec: Rec)
    requires (forall r :: r in some ==> r in all) && Asked(some, rec)
    ensures Asked(all, rec)
  {
  }

  /** From any state, an activation leaves only sources that the new profile owns and asks for if and only if
      it leaves nothing behind. */
  lemma TidyIff(before: map<nat, Rec>, after: map<nat, Rec>, oldName: string, oldRefs: seq<Ref>, newName: string,
                newRefs: seq<Ref>)
    requires Overlaid(before, after, RefsMinus(oldRefs, newRefs), OwnerOf(oldName), RefsMinus(newRefs, oldRefs),
        OwnerOf(newName))
    ensures Tidy(after, newName, newRefs) <==> LeavesNothingBehind(before, oldName, oldRefs, newName, newRefs)
  {
    hide Asked, RefsMinus;
    RefsMinusMeaning(newRefs, oldRefs);
    forall rec | Asked(RefsMinus(newRefs, oldRefs), rec) ensures Asked(newRefs, rec) {
      AskedAmong(RefsMinus(newRefs, oldRefs), newRefs, rec);
    }
  }

  /** A ref whose source an activation takes care of: it is removed, or stays asked for by the same profile. */
  ghost predicate Handled(r: Ref, oldName: string, oldRefs: seq<Ref>, newName: string, newRefs: seq<Ref>) {
    var rec := Rec(r.kind, Ident(r), true, OwnerOf(oldName));
    Asked(RefsMinus(oldRefs, newRefs), rec) || (oldName == newName && Asked(newRefs, rec))
  }

  lemma OwnersDiffer(a: string, b: string)
    ensures OwnerOf(a) == OwnerOf(b) <==> a == b
  {
    if a != "" && b != "" {
      assert OwnerOf(a)[8..] == a && OwnerOf(b)[8..] == b;
    }
  }

  /** The same in terms of the declarations alone: an activation is tidy from every tidy state if and only
      if it takes care of every ref of the profile that it leaves. */
  lemma TidyFromEveryState(oldName: string, oldRefs: seq<Ref>, newName: string, newRefs: seq<Ref>)
    requires oldName != ""
    ensures (forall before: map<nat, Rec> :: Tidy(before, oldName, oldRefs) ==>
        LeavesNothingBehind(before, oldName, oldRefs, newName, newRefs))
       <==> forall r :: r in oldRefs ==> Handled(r, oldName, oldRefs, newName, newRefs)
  {
    OwnersDiffer(oldName, newName);
    if forall before: map<nat, Rec> :: Tidy(before, oldName, oldRefs) ==>
        LeavesNothingBehind(before, oldName, oldRefs, newName, newRefs) {
      forall r | r in oldRefs ensures Handled(r, oldName, oldRefs, newName, newRefs) {
        var before := map[0 := Rec(r.kind, Ident(r), true, OwnerOf(oldName))];
        assert Asked(oldRefs, before[0]);
        assert Tidy(before, oldName, oldRefs);
        assert 0 in before && before[0].open;
      }
    }
    if forall r :: r in oldRefs ==> Handled(r, oldName, oldRefs, newName, newRefs) {
      forall before: map<nat, Rec> | Tidy(before, oldName, oldRefs)
        ensures LeavesNothingBehind(before, oldName, oldRefs, newName, newRefs)
      {
        forall i | i in before && before[i].open && before[i].owner != ""
          ensures Removable(before[i], RefsMinus(oldRefs, newRefs), OwnerOf(oldName))
               || (before[i].owner == OwnerOf(newName) && Asked(newRefs, before[i]))
        {
          var r :| r in oldRefs && r.kind == before[i].kind && Ident(r) == before[i].name;
          assert Handled(r, oldName, oldRefs, newName, newRefs);
          assert before[i] == Rec(r.kind, Ident(r), true, OwnerOf(oldName));
        }
      }
    }
  }

  /** The two lists share no source by kind and name. */
  ghost predicate Disjoint(a: seq<Ref>, b: seq<Ref>) {
    forall r :: r in a ==> !Declared(r, b)
  }

  /** Switching between profiles that share no source leaves nothing behind. */
  lemma SwitchIsTidy(before: map<nat, Rec>, oldName: string, oldRefs: seq<Ref>, newName: string, newRefs: seq<Ref>)
    requires Tidy(before, oldName, oldRefs) && Disjoint(oldRefs, newRefs)
    ensures LeavesNothingBehind(before, oldName, oldRefs, newName, newRefs)
  {
    RefsMinusMeaning(oldRefs, newRefs);
    forall rec | Asked(oldRefs, rec) ensures Asked(RefsMinus(oldRefs, newRefs), rec) {
      AskedAmong(oldRefs, RefsMinus(oldRefs, newRefs), rec);
    }
  }

  /** Refs that both lists declare ask for the same source in both. */
  ghost predicate SamePaths(a: seq<Ref>, b: seq<Ref>) {
    forall r, q :: r in a && q in b && SameRef(r, q) ==> Ident(r) == Ident(q)
  }

  /** Activating the active profile again, edited or not, leaves nothing behind if no kept ref changed its path. */
  lemma ReactivationIsTidy(before: map<nat, Rec>, name: string, oldRefs: seq<Ref>, newRefs: seq<Ref>)
    requires Tidy(before, name, oldRefs) && SamePaths(oldRefs, newRefs)
    ensures LeavesNothingBehind(before, name, oldRefs, name, newRefs)
  {
    RefsMinusMeaning(oldRefs, newRefs);
    forall i | i in before && before[i].open && before[i].owner != ""
      ensures Asked(RefsMinus(oldRefs, newRefs), before[i]) || Asked(newRefs, before[i])
    {
      var r :| r in oldRefs && r.kind == before[i].kind && Ident(r) == before[i].name;
      if Declared(r, newRefs) {
        var q :| q in newRefs && SameRef(r, q);
        assert q.kind == before[i].kind && Ident(q) == before[i].name;
      }
    }
  }

  /** Activating with an unchanged list does nothing at all. */
  lemma UnchangedIsNoop(before: map<nat, Rec>, after: map<nat, Rec>, refs: seq<Ref>, owner: string)
    requires Overlaid(before, after, RefsMinus(refs, refs), owner, RefsMinus(refs, refs), owner)
    ensures after == before
  {
    RefsMinusMeaning(refs, refs);
    forall r | r in refs ensures Declared(r, refs) {
      assert SameRef(r, r);
    }
    assert forall i :: i in after <==> i in before;
  }

  function Find(profiles: seq<Profile>, name: string): Option<seq<Ref>> {
    if profiles == [] then None
    else if profiles[0].name == name then Some(profiles[0].refs)
    else Find(profiles[1..], name)
  }

  /** What can be started; containers depend on the engine. */
  predicate Startable(r: Ref, engine: string -> bool) {
    if r.kind == FILE then Ident(r) != "" else r.kind == DOCKER && r.name != "" && engine(r.name)
  }

  ghost predicate Running(srcs: map<nat, Rec>, kind: string, ident: string) {
    exists i :: i in srcs && srcs[i].open && srcs[i].kind == kind && srcs[i].name == ident
  }

  /** What profiles and sources look like between two operations. */
  datatype State = State(srcs: map<nat, Rec>, profile: string, refs: seq<Ref>, profiles: seq<Profile>)

  ghost predicate TidyState(s: State) {
    Tidy(s.srcs, s.profile, s.refs)
  }

  /** An activation of a known profile, or of none. */
  ghost predicate Activated(s: State, t: State) {
    && t.profiles == s.profiles
    && (if t.profile == "" then t.refs == [] else Find(s.profiles, t.profile) == Some(t.refs))
    && Overlaid(s.srcs, t.srcs, RefsMinus(s.refs, t.refs), OwnerOf(s.profile), RefsMinus(t.refs, s.refs),
        OwnerOf(t.profile))
  }

  /** Anything else: sources of the user come, any source goes or ends, profiles are saved. */
  ghost predicate Otherwise(s: State, t: State) {
    && t.profile == s.profile && t.refs == s.refs
    && forall i :: i in t.srcs && t.srcs[i].open && t.srcs[i].owner != "" ==> i in s.srcs && s.srcs[i] == t.srcs[i]
  }

  ghost predicate Step(s: State, t: State) {
    Activated(s, t) || Otherwise(s, t)
  }

  /** The start of a server, and then one operation after the other. */
  ghost predicate Run(states: seq<State>) {
    && states != [] && states[0] == State(map[], "", [], states[0].profiles)
    && forall k :: 0 <= k < |states| - 1 ==> Step(states[k], states[k + 1])
  }

  ghost predicate LeavesNothing(s: State, t: State) {
    LeavesNothingBehind(s.srcs, s.profile, s.refs, t.profile, t.refs)
  }

  lemma StepTidy(s: State, t: State)
    requires Step(s, t) && TidyState(s)
    ensures Activated(s, t) ==> (TidyState(t) <==> LeavesNothing(s, t))
    ensures Otherwise(s, t) ==> TidyState(t)
  {
    hide Asked, RefsMinus;
    if Activated(s, t) {
      TidyIff(s.srcs, t.srcs, s.profile, s.refs, t.profile, t.refs);
    }
  }

  /** Over whole runs: the open owned sources are always those of the active profile if and only if no
      activation of the run leaves anything behind. */
  lemma RunTidyIff(states: seq<State>)
    requires Run(states)
    ensures (forall k :: 0 <= k < |states| ==> TidyState(states[k]))
       <==> forall k :: 0 <= k < |states| - 1 && Activated(states[k], states[k + 1]) ==>
           LeavesNothing(states[k], states[k + 1])
  {
    hide TidyState, Activated, Otherwise, LeavesNothing;
    if forall k :: 0 <= k < |states| ==> TidyState(states[k]) {
      forall k | 0 <= k < |states| - 1 && Activated(states[k], states[k + 1])
          ensures LeavesNothing(states[k], states[k + 1]) {
        StepTidy(states[k], states[k + 1]);
      }
    } else if forall k :: 0 <= k < |states| - 1 && Activated(states[k], states[k + 1]) ==>
        LeavesNothing(states[k], states[k + 1]) {
      StartTidy(states[0]);
      for n := 0 to |states| - 1
        invariant forall k :: 0 <= k <= n ==> TidyState(states[k])
      {
        StepTidy(states[n], states[n + 1]);
      }
    }
  }

  lemma StartTidy(s: State)
    requires s.srcs == map[]
    ensures TidyState(s)
  {
  }

  lemma {:induction false} NoProfileNoRefs(states: seq<State>, k: nat)
    requires Run(states) && k < |states|
    ensures states[k].profile == "" ==> states[k].refs == []
    decreases k
  {
    hide Overlaid;
    if k > 0 {
      NoProfileNoRefs(states, k - 1);
      assert Step(states[k - 1], states[k]);
    }
  }

  /** In no run does an activation remove or re-own a source of the user. */
  lemma UserSourcesSurvive(states: seq<State>, k: nat, i: nat)
    requires Run(states) && k < |states| - 1 && Activated(states[k], states[k + 1])
    requires i in states[k].srcs && states[k].srcs[i].owner == ""
    ensures i in states[k + 1].srcs && states[k + 1].srcs[i] == states[k].srcs[i]
  {
    hide RefsMinus;
    var s, t := states[k], states[k + 1];
    NoProfileNoRefs(states, k);
    NothingToRemove(s.refs, t.refs);
    UserSourcesSafe(s.srcs, t.srcs, RefsMinus(s.refs, t.refs), OwnerOf(s.profile), RefsMinus(t.refs, s.refs),
        OwnerOf(t.profile), i);
  }

  /** Different profiles share no source. */
  ghost predicate Apart(profiles: seq<Profile>) {
    forall a, b :: Find(profiles, a).Some? && Find(profiles, b).Some? && a != b ==>
      Disjoint(Find(profiles, a).value, Find(profiles, b).value)
  }

  /** The active refs are those that the active profile has in the list. */
  ghost predicate Current(s: State) {
    if s.profile == "" then s.refs == [] else Find(s.profiles, s.profile) == Some(s.refs)
  }

  /** When profiles share no source and are not edited, then over every sequence of activations, additions,
      removals and ends of sources only the sources of the active profile are open and owned. */
  lemma {:induction false} DisjointRunsAreTidy(states: seq<State>)
    requires Run(states) && Apart(states[0].profiles)
    requires forall k :: 0 <= k < |states| ==> states[k].profiles == states[0].profiles
    ensures TidyState(states[|states| - 1]) && Current(states[|states| - 1])
    decreases |states|
  {
    hide TidyState, Activated, Otherwise;
    var n := |states| - 1;
    if n == 0 {
      StartTidy(states[0]);
    } else {
      var before := states[..n];
      assert forall k :: 0 <= k < n - 1 ==> Step(before[k], before[k + 1]);
      DisjointRunsAreTidy(before);
      assert Step(states[n - 1], states[n]);
      DisjointStep(states[n - 1], states[n]);
    }
  }

  lemma Unedited(srcs: map<nat, Rec>, name: string, refs: seq<Ref>)
    requires Tidy(srcs, name, refs)
    ensures LeavesNothingBehind(srcs, name, refs, name, refs)
  {
    hide Asked, RefsMinus;
  }

  lemma NothingShared(a: seq<Ref>, b: seq<Ref>)
    requires a == [] || b == []
    ensures Disjoint(a, b)
  {
  }

  lemma DisjointStep(s: State, t: State)
    requires Step(s, t) && TidyState(s) && Current(s) && t.profiles == s.profiles && Apart(s.profiles)
    ensures TidyState(t) && Current(t)
  {
    hide Asked, RefsMinus, Tidy, LeavesNothingBehind, Overlaid;
    StepTidy(s, t);
    if Activated(s, t) {
      if s.profile == t.profile {
        Unedited(s.srcs, s.profile, s.refs);
      } else {
        if s.refs == [] || t.refs == [] {
          NothingShared(s.refs, t.refs);
        }
        SwitchIsTidy(s.srcs, s.profile, s.refs, t.profile, t.refs);
      }
    }
  }

  class Server {
    var srcs: map<nat, Rec>
    var nextID: nat
    var activeProfile: string
    var activeRefs: seq<Ref>
    var profiles: seq<Profile>

    ghost predicate Valid()
      reads this
    {
      && Deduped(srcs) && (forall i :: i in srcs ==> i < nextID)
      && (activeProfile == "" ==> activeRefs == [])
    }

    ghost predicate IsTidy()
      reads this
    {
      Tidy(srcs, activeProfile, activeRefs)
    }

    /** What runs are made of. */
    ghost function Now(): State
      reads this
    {
      State(srcs, activeProfile, activeRefs, profiles)
    }

    constructor (profiles: seq<Profile>)
      ensures Valid() && IsTidy() && Now() == State(map[], "", [], profiles)
    {
      srcs, nextID, activeProfile, activeRefs, this.profiles := map[], 1, "", [], profiles;
    }

    method FindOpenSource(kind: string, ident: string) returns (id: Option<nat>)
      ensures id.Some? ==>
          id.value in srcs && srcs[id.value].open && srcs[id.value].kind == kind &&
          srcs[id.value].name == ident
      ensures id.None? ==> !Running(srcs, kind, ident)
    {
      var todo := srcs.Keys;
      while todo != {}
        invariant todo <= srcs.Keys
        invariant forall i :: i in srcs && i !in todo ==>
            !(srcs[i].open && srcs[i].kind == kind && srcs[i].name == ident)
      {
        var i :| i in todo;
        todo := todo - {i};
        var r := srcs[i];
        if !r.open {
          continue;
        }
        if r.kind == kind && r.name == ident {
          return Some(i);
        }
      }
      return None;
    }

    method FindOpenSourceWithOwner(kind: string, ident: string, owner: string) returns (id: Option<nat>)
      ensures id.Some? ==>
                && id.value in srcs && srcs[id.value].open && srcs[id.value].kind == kind &&
                    srcs[id.value].name == ident
                && srcs[id.value].owner == owner
      ensures id.None? ==>
                forall i :: i in srcs ==>
                    !(srcs[i].open && srcs[i].kind == kind && srcs[i].name == ident && srcs[i].owner == owner)
    {
      var todo := srcs.Keys;
      while todo != {}
        invariant todo <= srcs.Keys
        invariant forall i :: i in srcs && i !in todo ==>
                    !(srcs[i].open && srcs[i].kind == kind && srcs[i].name == ident && srcs[i].owner == owner)
      {
        var i :| i in todo;
        todo := todo - {i};
        var r := srcs[i];
        if !r.open || r.owner != owner {
          continue;
        }
        if r.kind == kind && r.name == ident {
          return Some(i);
        }
      }
      return None;
    }

    /** Starts a source unless one is already open for it, whoever owns that one; a number is used up even
        when starting fails. */
    method Start(kind: string, ident: string, owner: string, works: bool) returns (id: Option<nat>)
      requires Valid() && kind in {FILE, DOCKER}
      modifies this`srcs, this`nextID
      ensures Valid() && nextID >= old(nextID)
      ensures old(Running(srcs, kind, ident)) || works ==> id.Some? && Running(srcs, kind, ident)
      ensures if old(Running(srcs, kind, ident)) || !works then srcs == old(srcs)
              else
                && id == Some(old(nextID)) && id.value !in old(srcs)
                && srcs == old(srcs)[id.value := Rec(kind, ident, true, owner)]
    {
      var found := FindOpenSource(kind, ident);
      if found.Some? {
        return found;
      }
      var n := nextID;
      nextID := nextID + 1;
      if !works {
        return None;
      }
      srcs := srcs[n := Rec(kind, ident, true, owner)];
      assert srcs[n].open;
      return Some(n);
    }

    method AddFileSource(path: string) returns (id: Option<nat>)
      requires Valid()
      modifies this`srcs, this`nextID
      ensures Valid() && Otherwise(old(Now()), Now()) && id.Some? && Running(srcs, FILE, path)
      ensures forall i :: i in old(srcs) ==> i in srcs && srcs[i] == old(srcs)[i]
    {
      id := Start(FILE, path, "", true);
    }

    /** A container source; the engine may refuse it. */
    method AddDockerSource(name: string, engine: string -> bool) returns (id: Option<nat>)
      requires Valid()
      modifies this`srcs, this`nextID
      ensures Valid() && Otherwise(old(Now()), Now()) && (engine(name) ==> Running(srcs, DOCKER, name))
      ensures forall i :: i in old(srcs) ==> i in srcs && srcs[i] == old(srcs)[i]
    {
      id := Start(DOCKER, name, "", engine(name));
    }

    /** Every pipe is a source of its own. */
    method AddStdinSource(name: string) returns (id: nat)
      requires Valid()
      modifies this`srcs, this`nextID
      ensures Valid() && Otherwise(old(Now()), Now()) && id == old(nextID)
      ensures srcs == old(srcs)[id := Rec(STDIN, if name == "" then STDIN else name, true, "")]
    {
      id := nextID;
      nextID := nextID + 1;
      srcs := srcs[id := Rec(STDIN, if name == "" then STDIN else name, true, "")];
    }

    method RemoveSource(id: nat) returns (ok: bool)
      requires Valid()
      modifies this`srcs
      ensures Valid() && ok == (id in old(srcs)) && srcs == old(srcs) - {id}
      ensures Otherwise(old(Now()), Now())
    {
      ok := id in srcs;
      srcs := srcs - {id};
    }

    /** A source ends by itself, or fails. */
    method SourceEnded(id: nat)
      requires Valid()
      modifies this`srcs
      ensures Valid() && srcs == if id in old(srcs) then old(srcs)[id := old(srcs)[id].(open := false)] else old(srcs)
      ensures Otherwise(old(Now()), Now())
    {
      if id in srcs {
        srcs := srcs[id := srcs[id].(open := false)];
      }
    }

    /** Starts what a ref declares, if that can be started. */
    method StartRef(r: Ref, owner: string, engine: string -> bool) returns (id: Option<nat>)
      requires Valid()
      modifies this`srcs, this`nextID
      ensures Valid() && old(nextID) <= nextID
      ensures Startable(r, engine) ==> Running(srcs, r.kind, Ident(r))
      ensures srcs == old(srcs) || (srcs == old(srcs)[old(nextID) := Rec(r.kind, Ident(r), true, owner)] &&
          old(nextID) !in old(srcs))
      ensures id.None? ==> srcs == old(srcs)
    {
      if r.kind == FILE {
        var path := if r.path != "" then r.path else r.name;
        if path == "" {
          return None;
        }
        id := Start(FILE, path, owner, true);
      } else if r.kind == DOCKER {
        if r.name == "" {
          return None;
        }
        id := Start(DOCKER, r.name, owner, engine(r.name));
      } else {
        return None;
      }
    }

    /** The sources that `refs` ask for and `owner` owns go, one by one. */
    method RemoveAll(refs: seq<Ref>, owner: string)
      requires Valid() && (owner == "" ==> refs == [])
      modifies this`srcs
      ensures Valid()
      ensures forall i :: i in srcs <==> i in old(srcs) && !Removable(old(srcs)[i], refs, owner)
      ensures forall i :: i in srcs ==> srcs[i] == old(srcs)[i]
    {
      var k := 0;
      while k < |refs|
        invariant 0 <= k <= |refs| && Valid()
        invariant forall i :: i in srcs <==> i in old(srcs) && !Removable(old(srcs)[i], refs[..k], owner)
        invariant forall i :: i in srcs ==> srcs[i] == old(srcs)[i]
      {
        var r := refs[k];
        var ident := if r.path != "" && r.kind == FILE then r.path else r.name;
        var id := FindOpenSourceWithOwner(r.kind, ident, owner);
        AskedMore(refs, k);
        if id.Some? {
          var ok := RemoveSource(id.value);
        }
        k := k + 1;
      }
      assert refs[..k] == refs;
    }

    method AddAll(refs: seq<Ref>, owner: string, engine: string -> bool)
      requires Valid()
      modifies this`srcs, this`nextID
      ensures Valid() && nextID >= old(nextID)
      ensures forall i :: i in old(srcs) ==> i in srcs && srcs[i] == old(srcs)[i]
      ensures forall i :: i in srcs && i !in old(srcs) ==>
          srcs[i].open && srcs[i].owner == owner && Asked(refs, srcs[i]) && i >= old(nextID)
      ensures forall r :: r in refs && Startable(r, engine) ==> Running(srcs, r.kind, Ident(r))
    {
      hide Deduped, Startable;
      var k := 0;
      while k < |refs|
        invariant 0 <= k <= |refs| && Valid() && nextID >= old(nextID)
        invariant forall i :: i in old(srcs) ==> i in srcs && srcs[i] == old(srcs)[i]
        invariant forall i :: i in srcs && i !in old(srcs) ==>
                    srcs[i].open && srcs[i].owner == owner && Asked(refs, srcs[i]) && i >= old(nextID)
        invariant forall j :: 0 <= j < k && Startable(refs[j], engine) ==> Running(srcs, refs[j].kind, Ident(refs[j]))
      {
        ghost var before := srcs;
        var id := StartRef(refs[k], owner, engine);
        forall kind, ident | Running(before, kind, ident) ensures Running(srcs, kind, ident) {
          var i :| i in before && before[i].open && before[i].kind == kind && before[i].name == ident;
          assert i in srcs && srcs[i] == before[i];
        }
        k := k + 1;
      }
    }

    /** Activates a profile; "" is no profile. An unknown name changes nothing. */
    method ActivateProfile(name: string, engine: string -> bool) returns (ok: bool)
      requires Valid()
      modifies this
      ensures Valid() && profiles == old(profiles) && ok == (name == "" || Find(profiles, name).Some?)
      ensures !ok ==> srcs == old(srcs) && activeProfile == old(activeProfile) && activeRefs == old(activeRefs)
      ensures ok ==> activeProfile == name && activeRefs == if name == "" then [] else Find(profiles, name).value
      ensures ok ==> Overlaid(old(srcs), srcs, RefsMinus(old(activeRefs), activeRefs), OwnerOf(old(activeProfile)),
                              RefsMinus(activeRefs, old(activeRefs)), OwnerOf(name))
      ensures ok ==> forall r :: r in RefsMinus(activeRefs, old(activeRefs)) && Startable(r, engine) ==>
                       Running(srcs, r.kind, Ident(r))
      ensures forall i :: i in old(srcs) && old(srcs)[i].owner == "" ==> i in srcs && srcs[i] == old(srcs)[i]
      ensures ok ==> Activated(old(Now()), Now())
      ensures ok ==> (IsTidy() <==> LeavesNothing(old(Now()), Now()))
    {
      hide Asked, Deduped, RefsMinus, Startable, Running, Tidy, LeavesNothingBehind;
      var newRefs := [];
      if name != "" {
        var found := Lookup(name);
        if found.None? {
          return false;
        }
        newRefs := found.value;
      }
      var toRemove := Minus(activeRefs, newRefs);
      var toAdd := Minus(newRefs, activeRefs);
      NothingToRemove(activeRefs, newRefs);
      NobodyAsked();
      RemoveAll(toRemove, OwnerOf(activeProfile));
      AddAll(toAdd, OwnerOf(name), engine);
      activeProfile := name;
      activeRefs := newRefs;
      TidyIff(old(srcs), srcs, old(activeProfile), old(activeRefs), name, newRefs);
      return true;
    }

    method Lookup(name: string) returns (refs: Option<seq<Ref>>)
      ensures refs == Find(profiles, name)
    {
      var i := 0;
      while i < |profiles|
        invariant 0 <= i <= |profiles| && Find(profiles, name) == Find(profiles[i..], name)
      {
        if profiles[i].name == name {
          return Some(profiles[i].refs);
        }
        assert profiles[i..][1..] == profiles[i + 1..];
        i := i + 1;
      }
      return None;
    }

    /** Saved profiles change; the active one stays active with the sources it declared before. */
    method SetProfiles(profiles: seq<Profile>)
      requires Valid()
      modifies this`profiles
      ensures Valid() && this.profiles == profiles && Otherwise(old(Now()), Now())
    {
      this.profiles := profiles;
    }
  }

  lemma NothingToRemove(a: seq<Ref>, b: seq<Ref>)
    ensures a == [] ==> RefsMinus(a, b) == []
  {
  }

  lemma NobodyAsked()
    ensures forall rec :: !Asked([], rec)
  {
  }

  lemma AskedMore(refs: seq<Ref>, k: nat)
    requires k < |refs|
    ensures forall rec :: Asked(refs[..k + 1], rec) <==>
              Asked(refs[..k], rec) || (refs[k].kind == rec.kind && Ident(refs[k]) == rec.name)
  {
    assert refs[..k + 1] == refs[..k] + [refs[k]];
  }

  /** Editing the path of a declared file while its profile is active leaves a source behind: neither the
      next activation of the profile nor leaving it stops the old file. */
  lemma EditedPathLeaks(before: map<nat, Rec>, edited: map<nat, Rec>, after: map<nat, Rec>)
    requires before == map[1 := Rec(FILE, "/1", true, "profile:p")]
    requires var (old1, new1) := ([Ref(FILE, "f", "/1")], [Ref(FILE, "f", "/2")]); var owner := OwnerOf("p");
             && Overlaid(before, edited, RefsMinus(old1, new1), owner, RefsMinus(new1, old1), owner)
             && Overlaid(edited, after, RefsMinus(new1, []), owner, RefsMinus([], new1), "")
    ensures Tidy(before, "p", [Ref(FILE, "f", "/1")]) && !Tidy(after, "", [])
  {
    var r, q := Ref(FILE, "f", "/1"), Ref(FILE, "f", "/2");
    assert SameRef(r, q) && Declared(r, [q]) && r in [r];
    RefsMinusMeaning([r], [q]);
    RefsMinusMeaning([q], []);
    assert before[1].owner == OwnerOf("p");
    assert "/1"[1] != "/2"[1];
    assert 1 in edited;
    assert 1 in after && after[1] == before[1];
  }

  /** So does switching between two profiles that declare the same file: it is not removed on the way, as
      both declare it, and not on leaving the second one, which does not own it. */
  lemma SharedSourceLeaks(before: map<nat, Rec>, middle: map<nat, Rec>, after: map<nat, Rec>)
    requires before == map[1 := Rec(FILE, "/1", true, "profile:a")]
    requires var refs := [Ref(FILE, "f", "/1")];
             && Overlaid(before, middle, RefsMinus(refs, refs), OwnerOf("a"), RefsMinus(refs, refs), OwnerOf("b"))
             && Overlaid(middle, after, RefsMinus(refs, []), OwnerOf("b"), RefsMinus([], refs), "")
    ensures Tidy(before, "a", [Ref(FILE, "f", "/1")]) && !Tidy(middle, "b", [Ref(FILE, "f", "/1")]) &&
        !Tidy(after, "", [])
  {
    var r := Ref(FILE, "f", "/1");
    assert SameRef(r, r) && Declared(r, [r]) && r in [r];
    RefsMinusMeaning([r], [r]);
    OwnersDiffer("a", "b");
    assert before[1].owner == OwnerOf("a");
    assert 1 in middle && middle[1] == before[1];
    assert 1 in after && after[1] == before[1];
  }
}
