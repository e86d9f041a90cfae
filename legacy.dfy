/**
 * The single-node daemon of main.go: its own four-field service record,
 * a `load` that keeps the first definition seen for a name and only marks
 * later differing ones, and a `launch` that starts every service without a
 * container.
 */
module Legacy {
  import opened Wrappers
  import opened Text
  import opened Host
  import Daemon

  /** The record of main.go:38-44. */
  datatype Service = Service(name: string, bash: string, repo: string, tag: string)

  /** Differs as written: the third case compares b's tag with itself. */
  predicate Differs(a: Service, b: Service)
    ensures Differs(a, b) ==> a != b
  {
    if a.bash != b.bash then true
    else if a.repo != b.repo then true
    else if b.tag != b.tag then true
    else false
  }

  /** Differs holds exactly when the template or the repository differ. */
  lemma DiffersIff(a: Service, b: Service)
    ensures Differs(a, b) <==> a.bash != b.bash || a.repo != b.repo
  {
  }

  /** Finding: records that differ only in their tag never count as different. */
  lemma DiffersIgnoresTag(a: Service, tag: string)
    requires tag != a.tag
    ensures !Differs(a, a.(tag := tag))
  {
  }

  /** The comparison evidently intended: template, repository or tag differ. */
  predicate DiffersIntended(a: Service, b: Service)
  {
    a.bash != b.bash || a.repo != b.repo || a.tag != b.tag
  }

  /**
   * The intended comparison is inequality on the three compared fields; on a
   * retagged record it and the written one disagree.
   */
  lemma DiffersIntendedSeesTag(a: Service, b: Service)
    ensures DiffersIntended(a, b) <==> (a.bash, a.repo, a.tag) != (b.bash, b.repo, b.tag)
    ensures a.name == b.name ==> (DiffersIntended(a, b) <==> a != b)
    ensures a.bash == b.bash && a.repo == b.repo && a.tag != b.tag ==> DiffersIntended(a, b) && !Differs(a, b)
  {
  }

  /** Valid: an error exactly when the template does not mention the repository. */
  function Valid(s: Service): (err: Option<string>)
    ensures err.None? <==> exists i :: OccursAt(s.bash, s.repo, i)
  {
    ContainsIff(s.bash, s.repo);
    if !Contains(s.bash, s.repo) then Some("Service bash command does not contain repo") else None
  }

  /**
   * GenerateBash: the first token of the template, then "--name" and the
   * name, then the remaining tokens in order.
   */
  function GenerateBash(s: Service): (argv: seq<string>)
    ensures var tokens := Split(s.bash, ' ');
            && |argv| == |tokens| + 2
            && argv[0] == tokens[0]
            && argv[1..3] == ["--name", s.name]
            && argv[3..] == tokens[1..]
  {
    var tokens := Split(s.bash, ' ');
    [tokens[0]] + ["--name", s.name] + tokens[1..]
  }

  /** Dropping the two injected arguments and joining with spaces gives the template back. */
  lemma GenerateBashRestoresTemplate(s: Service)
    ensures var argv := GenerateBash(s);
            Join([argv[0]] + argv[3..], ' ') == s.bash
  {
    var tokens := Split(s.bash, ' ');
    var argv := GenerateBash(s);
    assert [argv[0]] + argv[3..] == tokens;
    JoinSplit(s.bash, ' ');
  }

  /** The suffix test of load: json, yaml or yml (no dot is required). */
  predicate Recognised(fname: string)
  {
    HasSuffix(fname, "json") || HasSuffix(fname, "yaml") || HasSuffix(fname, "yml")
  }

  /** The record load considers for one directory entry: readable, recognised, parsed and valid. */
  function Candidate(e: FileEntry<Service>): (r: Option<Service>)
    ensures r.Some? <==> e.content.Readable? && Recognised(e.name) && e.content.parsed.Some? && Valid(e.content.parsed.value).None?
    ensures r.Some? ==> r.value == e.content.parsed.value
  {
    match e.content
    case Unreadable => None
    case Readable(parsed) =>
      if !Recognised(e.name) || parsed.None? || Valid(parsed.value).Some? then None else parsed
  }

  /** Where a load stands: the services, the change marks (None is Go's nil map) and whether it panicked. */
  datatype Progress = Progress(services: map<string, Service>, changed: Option<set<string>>, panicked: bool)

  /** One entry of load's loop. Marking a change in the nil map panics. */
  function Step(p: Progress, e: FileEntry<Service>): Progress
  {
    if p.panicked then p
    else
      match Candidate(e)
      case None => p
      case Some(s) =>
        if s.name !in p.services then p.(services := p.services[s.name := s])
        else if !Differs(p.services[s.name], s) then p
        else if p.changed.None? then p.(panicked := true)
        else p.(changed := Some(p.changed.value + {s.name}))
  }

  /** load's loop over a directory listing, as a fold. */
  function Run(p: Progress, es: seq<FileEntry<Service>>): Progress
    decreases |es|
  {
    if es == [] then p else Step(Run(p, es[..|es| - 1]), es[|es| - 1])
  }

  /** Once a load panics it stays panicked. */
  lemma {:induction false} PanicIsFinal(p: Progress, es: seq<FileEntry<Service>>)
    requires p.panicked
    ensures Run(p, es) == p
    decreases |es|
  {
    if es != [] {
      PanicIsFinal(p, es[..|es| - 1]);
    }
  }

  /** A stored service is never replaced; entries are only ever added. */
  lemma {:induction false} NeverReplaced(p: Progress, es: seq<FileEntry<Service>>)
    ensures p.services.Keys <= Run(p, es).services.Keys
    ensures forall n :: n in p.services ==> Run(p, es).services[n] == p.services[n]
    decreases |es|
  {
    if es != [] {
      NeverReplaced(p, es[..|es| - 1]);
    }
  }

  /** Every stored name comes from a candidate entry or was there before. */
  lemma {:induction false} StoredFromCandidates(p: Progress, es: seq<FileEntry<Service>>, n: string)
    requires n in Run(p, es).services
    ensures n in p.services || exists i :: 0 <= i < |es| && Candidate(es[i]) == Some(Run(p, es).services[n])
    decreases |es|
  {
    if es != [] {
      var init := es[..|es| - 1];
      var q := Run(p, init);
      NeverReplaced(q, [es[|es| - 1]]);
      assert Run(q, [es[|es| - 1]]) == Step(Run(q, []), es[|es| - 1]);
      if n in q.services {
        StoredFromCandidates(p, init, n);
        if n !in p.services {
          var i :| 0 <= i < |init| && Candidate(init[i]) == Some(q.services[n]);
          assert es[i] == init[i];
        }
      }
    }
  }

  /** Every candidate's name is stored and its differences from the stored record are marked. */
  ghost predicate Covers(q: Progress, es: seq<FileEntry<Service>>)
  {
    forall i :: 0 <= i < |es| && Candidate(es[i]).Some? ==>
      var s := Candidate(es[i]).value;
      s.name in q.services &&
      (Differs(q.services[s.name], s) ==> q.changed.Some? && s.name in q.changed.value)
  }

  lemma {:induction false} RunCovers(p: Progress, es: seq<FileEntry<Service>>)
    requires !Run(p, es).panicked
    ensures Covers(Run(p, es), es)
    decreases |es|
  {
    if es != [] {
      var init := es[..|es| - 1];
      var e := es[|es| - 1];
      var q := Run(p, init);
      assert Run(p, es) == Step(q, e);
      if !q.panicked {
        RunCovers(p, init);
        var r := Step(q, e);
        assert q.services.Keys <= r.services.Keys;
        assert forall n :: n in q.services ==> r.services[n] == q.services[n];
        assert q.changed.Some? ==> r.changed.Some? && q.changed.value <= r.changed.value;
        forall i | 0 <= i < |es| && Candidate(es[i]).Some?
          ensures var s := Candidate(es[i]).value;
                  s.name in r.services && (Differs(r.services[s.name], s) ==> r.changed.Some? && s.name in r.changed.value)
        {
          if i < |init| {
            assert es[i] == init[i];
          }
        }
      }
    }
  }

  lemma {:induction false} CoveredRunIsIdle(q: Progress, es: seq<FileEntry<Service>>, more: seq<FileEntry<Service>>)
    requires Covers(q, es) && !q.panicked
    requires forall k :: 0 <= k < |more| ==> more[k] in es
    ensures Run(q, more) == q
    decreases |more|
  {
    if more != [] {
      CoveredRunIsIdle(q, es, more[..|more| - 1]);
      var e := more[|more| - 1];
      var i :| 0 <= i < |es| && es[i] == e;
      assert Run(q, more) == Step(q, e);
      if Candidate(e).Some? {
        var s := Candidate(e).value;
        assert s.name in q.services;
        if Differs(q.services[s.name], s) {
          assert q.changed.value + {s.name} == q.changed.value;
        }
      }
    }
  }

  /** Loading an unchanged directory again changes nothing (when the first load did not panic). */
  lemma ReloadIsIdle(p: Progress, es: seq<FileEntry<Service>>)
    requires !Run(p, es).panicked
    ensures Run(Run(p, es), es) == Run(p, es)
  {
    RunCovers(p, es);
    CoveredRunIsIdle(Run(p, es), es, es);
  }

  /**
   * With the change marks still the nil map, load finishes without
   * panicking only when every candidate agrees in template and repository
   * with the record finally stored under its name.
   */
  lemma NilChangedFinishesOnlyWhenAgreeing(p: Progress, es: seq<FileEntry<Service>>)
    requires p.changed.None? && !Run(p, es).panicked
    ensures forall i :: 0 <= i < |es| && Candidate(es[i]).Some? ==>
      Candidate(es[i]).value.name in Run(p, es).services &&
      !Differs(Run(p, es).services[Candidate(es[i]).value.name], Candidate(es[i]).value)
  {
    RunCovers(p, es);
    ChangedStaysNil(p, es);
  }

  /**
   * Two candidates for one name with different templates or repositories
   * make load panic while the change marks are the nil map.
   */
  lemma ConflictPanics(p: Progress, es: seq<FileEntry<Service>>, i: nat, j: nat)
    requires p.changed.None?
    requires i < |es| && j < |es| && Candidate(es[i]).Some? && Candidate(es[j]).Some?
    requires Candidate(es[i]).value.name == Candidate(es[j]).value.name
    requires Differs(Candidate(es[i]).value, Candidate(es[j]).value)
    ensures Run(p, es).panicked
  {
    if !Run(p, es).panicked {
      NilChangedFinishesOnlyWhenAgreeing(p, es);
    }
  }

  /** The change marks never leave the nil map on their own. */
  lemma {:induction false} ChangedStaysNil(p: Progress, es: seq<FileEntry<Service>>)
    requires p.changed.None?
    ensures Run(p, es).changed.None?
    decreases |es|
  {
    if es != [] {
      ChangedStaysNil(p, es[..|es| - 1]);
    }
  }

  /** The daemon's globals: Services and serviceChanged, both nil maps at start. */
  class State {
    var services: Option<map<string, Service>>
    var serviceChanged: Option<set<string>>

    constructor ()
      ensures services.None? && serviceChanged.None?
    {
      services := None;
      serviceChanged := None;
    }
  }

  /** What a call of load ends in. */
  datatype Outcome = Done | Failed(err: string) | Panicked(msg: string)

  /**
   * load: creates the services map when nil; fails only when the directory
   * cannot be read; otherwise runs the loop, which panics when a differing
   * re-read is marked in the nil change map.
   */
  method Load(st: State, listing: Result<seq<FileEntry<Service>>>) returns (outcome: Outcome)
    modifies st
    ensures st.services.Some?
    ensures listing.Err? ==>
      && outcome == Failed(listing.error) && st.serviceChanged == old(st.serviceChanged)
      && st.services.value == (if old(st.services).Some? then old(st.services).value else map[])
    ensures listing.Ok? ==>
      var r := Run(Progress(if old(st.services).Some? then old(st.services).value else map[], old(st.serviceChanged), false), listing.value);
      && st.services.value == r.services && st.serviceChanged == r.changed
      && outcome == (if r.panicked then Panicked("assignment to entry in nil map") else Done)
  {
    if st.services.None? {
      st.services := Some(map[]);
    }
    if listing.Err? {
      return Failed(listing.error);
    }
    var es := listing.value;
    ghost var p0 := Progress(st.services.value, st.serviceChanged, false);
    for i := 0 to |es|
      invariant st.services.Some?
      invariant Run(p0, es[..i]) == Progress(st.services.value, st.serviceChanged, false)
    {
      var e := es[i];
      ghost var q := Progress(st.services.value, st.serviceChanged, false);
      RunStep(p0, es, i);
      match e.content {
        case Unreadable =>
          assert Candidate(e).None?;
        case Readable(parsed) =>
          if Recognised(e.name) && parsed.Some? && Valid(parsed.value).None? {
            var service := parsed.value;
            assert Candidate(e) == Some(service);
            var services := st.services.value;
            if service.name !in services {
              st.services := Some(services[service.name := service]);
            } else if Differs(services[service.name], service) {
              if st.serviceChanged.None? {
                assert Step(q, e).panicked;
                PanicIsFinal(Run(p0, es[..i + 1]), es[i + 1..]);
                RunSplit(p0, es, i + 1);
                return Panicked("assignment to entry in nil map");
              }
              st.serviceChanged := Some(st.serviceChanged.value + {service.name});
            }
          } else {
            assert Candidate(e).None?;
          }
      }
    }
    assert es[..|es|] == es;
    return Done;
  }

  lemma RunStep(p: Progress, es: seq<FileEntry<Service>>, i: nat)
    requires i < |es|
    ensures Run(p, es[..i + 1]) == Step(Run(p, es[..i]), es[i])
  {
    assert es[..i + 1][..i] == es[..i];
  }

  /** Running a listing is running its two halves one after the other. */
  lemma {:induction false} RunSplit(p: Progress, es: seq<FileEntry<Service>>, k: nat)
    requires k <= |es|
    ensures Run(p, es) == Run(Run(p, es[..k]), es[k..])
    decreases |es|
  {
    if k < |es| {
      RunSplit(p, es[..|es| - 1], k);
      assert es[..|es| - 1][..k] == es[..k];
      assert es[k..][..|es[k..]| - 1] == es[..|es| - 1][k..];
    } else {
      assert es[..k] == es;
    }
  }

  /** A nil map ranges over nothing, like an empty one. */
  function OrEmpty(m: Option<map<string, Service>>): map<string, Service>
  {
    if m.Some? then m.value else map[]
  }

  /** The commands launch runs: one per stored service without a container named "/" + name. */
  function Launches(services: map<string, Service>, cs: seq<Container>): map<string, seq<string>>
  {
    map n | n in services && Daemon.Named(cs, n).None? :: GenerateBash(services[n])
  }

  /**
   * launch: fails when the client cannot be created or the containers cannot
   * be listed; otherwise runs a command for each service without a
   * container (a failing command is only logged).
   */
  method Launch(st: State, clientOk: bool, containers: Result<seq<Container>>) returns (err: Option<string>, launched: map<string, seq<string>>)
    ensures !clientOk ==> err.Some? && launched == map[]
    ensures clientOk && containers.Err? ==> err == Some(containers.error) && launched == map[]
    ensures clientOk && containers.Ok? ==> err.None? && launched == Launches(OrEmpty(st.services), containers.value)
  {
    launched := map[];
    if !clientOk {
      return Some("cannot create docker client"), launched;
    }
    if containers.Err? {
      return Some(containers.error), launched;
    }
    var cs := containers.value;
    var services := OrEmpty(st.services);
    var todo := services.Keys;
    while todo != {}
      invariant todo <= services.Keys
      invariant launched == map n | n in services.Keys - todo && Daemon.Named(cs, n).None? :: GenerateBash(services[n])
      decreases todo
    {
      var name :| name in todo;
      var found, _ := Daemon.FindContainer(cs, name);
      if !found {
        launched := launched[name := GenerateBash(services[name])];
      }
      todo := todo - {name};
    }
    err := None;
  }

  /** A service whose container is listed is never launched again; one without a container always is. */
  lemma LaunchOnlyMissing(services: map<string, Service>, cs: seq<Container>, n: string)
    requires n in services
    ensures n in Launches(services, cs) <==> forall i :: 0 <= i < |cs| ==> "/" + n !in cs[i].names
  {
    Daemon.NamedSpec(cs, n);
  }
}
