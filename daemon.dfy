/**
 * The reconciler of daemon/daemon.go: `load` reads the definition directory
 * into the store, `launch` compares the stored services with the running
 * containers (flagging drift) and starts the missing ones, and `remove`
 * clears flags according to the outcome of removing containers.
 */
module Daemon {
  import opened Wrappers
  import opened Text
  import opened Types
  import opened Host
  import opened Shared

  // ---------------------------------------------------------------- load

  /** The suffix test of load: names ending in "yaml" or "yml" (no dot is required). */
  predicate IsYaml(fname: string)
  {
    HasSuffix(fname, "yaml") || HasSuffix(fname, "yml")
  }

  /** matchesNode: never on a node without a name, otherwise the selector's verdict. */
  function MatchesNode(s: Service, node: string, matches: Matcher): (r: bool)
    ensures node == "" ==> !r
    ensures node != "" ==> r == matches(s.node, node)
  {
    node != "" && matches(s.node, node)
  }

  /** A readable file whose name load does not recognise. */
  predicate Quarantined(e: FileEntry<Service>)
  {
    e.content.Readable? && !IsYaml(e.name)
  }

  /** The service load stores for one directory entry, if any. */
  function Accepted(e: FileEntry<Service>, node: string, matches: Matcher): (r: Option<Service>)
    ensures r.Some? <==>
      && e.content.Readable? && IsYaml(e.name) && e.content.parsed.Some?
      && Valid(e.content.parsed.value.(lastUpdated := e.modTime)).None?
      && MatchesNode(e.content.parsed.value.(lastUpdated := e.modTime), node, matches)
    ensures r.Some? ==> r.value == e.content.parsed.value.(lastUpdated := e.modTime) && !Quarantined(e)
  {
    match e.content
    case Unreadable => None
    case Readable(parsed) =>
      if !IsYaml(e.name) || parsed.None? then None
      else
        var s := parsed.value.(lastUpdated := e.modTime);
        if Valid(s).Some? || !MatchesNode(s, node, matches) then None else Some(s)
  }

  /** The services after load has gone through `es` in directory order. */
  function LoadedServices(m: map<string, Service>, es: seq<FileEntry<Service>>, node: string, matches: Matcher): map<string, Service>
    decreases |es|
  {
    if es == [] then m
    else
      var prev := LoadedServices(m, es[..|es| - 1], node, matches);
      match Accepted(es[|es| - 1], node, matches)
      case Some(s) => prev[s.name := s]
      case None => prev
  }

  /** The names load quarantines. */
  function BadNames(es: seq<FileEntry<Service>>): set<string>
    decreases |es|
  {
    if es == [] then {}
    else BadNames(es[..|es| - 1]) + (if Quarantined(es[|es| - 1]) then {es[|es| - 1].name} else {})
  }

  /** One more directory entry, as load's loop sees it. */
  lemma LoadStep(m: map<string, Service>, es: seq<FileEntry<Service>>, i: nat, node: string, matches: Matcher)
    requires i < |es|
    ensures LoadedServices(m, es[..i + 1], node, matches) ==
      match Accepted(es[i], node, matches)
      case Some(s) => LoadedServices(m, es[..i], node, matches)[s.name := s]
      case None => LoadedServices(m, es[..i], node, matches)
    ensures BadNames(es[..i + 1]) == BadNames(es[..i]) + (if Quarantined(es[i]) then {es[i].name} else {})
  {
    assert es[..i + 1][..i] == es[..i];
  }

  /**
   * load: a failing directory read is the only error. Every other entry
   * updates the store as LoadedServices and BadNames say; `warned` lists, in
   * order and once each, the unrecognised names not quarantined before.
   */
  method Load(st: Store, listing: Result<seq<FileEntry<Service>>>, node: string, matches: Matcher)
    returns (err: Option<string>, warned: seq<string>)
    requires st.Valid()
    modifies st
    ensures st.Valid()
    ensures st.serviceChanged == old(st.serviceChanged) && st.serviceOutdated == old(st.serviceOutdated)
    ensures listing.Err? ==>
      && err == Some(listing.error) && warned == []
      && st.services == old(st.services) && st.badServiceFiles == old(st.badServiceFiles)
    ensures listing.Ok? ==>
      && err.None?
      && st.services == LoadedServices(old(st.services), listing.value, node, matches)
      && st.badServiceFiles == old(st.badServiceFiles) + BadNames(listing.value)
      && (set n | n in warned) == BadNames(listing.value) - old(st.badServiceFiles)
    ensures forall k :: 0 <= k < |warned| ==> warned[k] !in old(st.badServiceFiles)
    ensures forall j, k :: 0 <= j < k < |warned| ==> warned[j] != warned[k]
  {
    warned := [];
    if listing.Err? {
      return Some(listing.error), warned;
    }
    err := None;
    var es := listing.value;
    for i := 0 to |es|
      invariant st.Valid()
      invariant st.serviceChanged == old(st.serviceChanged) && st.serviceOutdated == old(st.serviceOutdated)
      invariant st.services == LoadedServices(old(st.services), es[..i], node, matches)
      invariant st.badServiceFiles == old(st.badServiceFiles) + BadNames(es[..i])
      invariant (set n | n in warned) == BadNames(es[..i]) - old(st.badServiceFiles)
      invariant forall k :: 0 <= k < |warned| ==> warned[k] !in old(st.badServiceFiles) && warned[k] in st.badServiceFiles
      invariant forall j, k :: 0 <= j < k < |warned| ==> warned[j] != warned[k]
    {
      var e := es[i];
      LoadStep(old(st.services), es, i, node, matches);
      match e.content {
        case Unreadable =>
          assert Accepted(e, node, matches).None? && !Quarantined(e);
        case Readable(parsed) =>
          if IsYaml(e.name) {
            assert !Quarantined(e);
            if parsed.Some? {
              var service := parsed.value.(lastUpdated := e.modTime);
              if Valid(service).None? && MatchesNode(service, node, matches) {
                assert Accepted(e, node, matches) == Some(service);
                st.services := st.services[service.name := service];
              } else {
                assert Accepted(e, node, matches).None?;
              }
            } else {
              assert Accepted(e, node, matches).None?;
            }
          } else if e.name !in st.badServiceFiles {
            assert Accepted(e, node, matches).None? && Quarantined(e);
            assert (set n | n in warned + [e.name]) == (set n | n in warned) + {e.name};
            warned := warned + [e.name];
            st.badServiceFiles := st.badServiceFiles + {e.name};
          } else {
            assert Accepted(e, node, matches).None? && Quarantined(e);
          }
      }
    }
    assert es[..|es|] == es;
  }

  /** What load adds overrides what was there: loading is a map union with the accepted records. */
  lemma {:induction false} LoadedIsOverride(m: map<string, Service>, es: seq<FileEntry<Service>>, node: string, matches: Matcher)
    ensures LoadedServices(m, es, node, matches) == m + LoadedServices(map[], es, node, matches)
    decreases |es|
  {
    if es != [] {
      LoadedIsOverride(m, es[..|es| - 1], node, matches);
    }
  }

  /** Loading an unchanged directory a second time changes nothing. */
  lemma LoadIdempotent(m: map<string, Service>, es: seq<FileEntry<Service>>, node: string, matches: Matcher)
    ensures LoadedServices(LoadedServices(m, es, node, matches), es, node, matches) == LoadedServices(m, es, node, matches)
  {
    var a := LoadedServices(map[], es, node, matches);
    LoadedIsOverride(m, es, node, matches);
    LoadedIsOverride(m + a, es, node, matches);
    assert (m + a) + a == m + a;
  }

  /**
   * Everything load stores came from an accepted entry: a recognised,
   * parsed, valid record for this node, stamped with its file's time.
   */
  lemma {:induction false} LoadedProvenance(m: map<string, Service>, es: seq<FileEntry<Service>>, node: string, matches: Matcher, n: string)
    requires n in LoadedServices(m, es, node, matches)
    ensures var r := LoadedServices(m, es, node, matches);
            (n in m && r[n] == m[n]) || exists i :: 0 <= i < |es| && Accepted(es[i], node, matches) == Some(r[n])
    decreases |es|
  {
    if es != [] {
      var prefix := es[..|es| - 1];
      var last := |es| - 1;
      match Accepted(es[last], node, matches)
      case Some(s) =>
        if s.name != n {
          LoadedProvenance(m, prefix, node, matches, n);
          forall i | 0 <= i < |prefix| ensures prefix[i] == es[i] { }
        }
      case None =>
        LoadedProvenance(m, prefix, node, matches, n);
        forall i | 0 <= i < |prefix| ensures prefix[i] == es[i] { }
    }
  }

  /** An accepted entry overwrites unconditionally: the last accepted record for a name is the one stored. */
  lemma {:induction false} LoadLastWins(m: map<string, Service>, es: seq<FileEntry<Service>>, node: string, matches: Matcher, i: nat)
    requires i < |es| && Accepted(es[i], node, matches).Some?
    requires forall j :: i < j < |es| && Accepted(es[j], node, matches).Some? ==>
      Accepted(es[j], node, matches).value.name != Accepted(es[i], node, matches).value.name
    ensures var s := Accepted(es[i], node, matches).value;
            s.name in LoadedServices(m, es, node, matches) && LoadedServices(m, es, node, matches)[s.name] == s
    decreases |es|
  {
    if i < |es| - 1 {
      var prefix := es[..|es| - 1];
      assert prefix[i] == es[i];
      forall j | i < j < |prefix| && Accepted(prefix[j], node, matches).Some?
        ensures Accepted(prefix[j], node, matches).value.name != Accepted(prefix[i], node, matches).value.name
      {
        assert prefix[j] == es[j];
      }
      LoadLastWins(m, prefix, node, matches, i);
    }
  }

  // ---------------------------------------------------------------- launch

  /** The container launch's nested loop settles on: the last one listing "/" + name among its names. */
  function Named(cs: seq<Container>, name: string): Option<Container>
    decreases |cs|
  {
    if cs == [] then None
    else if "/" + name in cs[|cs| - 1].names then Some(cs[|cs| - 1])
    else Named(cs[..|cs| - 1], name)
  }

  /** Named finds a container exactly when one carries the name, and then the last such. */
  lemma {:induction false} NamedSpec(cs: seq<Container>, name: string)
    ensures Named(cs, name).Some? <==> exists i :: 0 <= i < |cs| && "/" + name in cs[i].names
    ensures Named(cs, name).Some? ==>
      exists i :: 0 <= i < |cs| && cs[i] == Named(cs, name).value && "/" + name in cs[i].names &&
        forall j :: i < j < |cs| ==> "/" + name !in cs[j].names
    decreases |cs|
  {
    if cs != [] {
      var prefix := cs[..|cs| - 1];
      NamedSpec(prefix, name);
      if "/" + name !in cs[|cs| - 1].names {
        if exists i :: 0 <= i < |cs| && "/" + name in cs[i].names {
          var i :| 0 <= i < |cs| && "/" + name in cs[i].names;
          assert prefix[i] == cs[i];
        }
        if Named(prefix, name).Some? {
          var i :| 0 <= i < |prefix| && prefix[i] == Named(prefix, name).value && "/" + name in prefix[i].names &&
            forall j :: i < j < |prefix| ==> "/" + name !in prefix[j].names;
          assert cs[i] == prefix[i];
          forall j | i < j < |cs| ensures "/" + name !in cs[j].names {
            if j < |prefix| { assert cs[j] == prefix[j]; }
          }
        }
      }
    }
  }

  /** launch's scan of the container list for "/" + name. */
  method FindContainer(containers: seq<Container>, name: string) returns (found: bool, cont: Container)
    ensures found == Named(containers, name).Some?
    ensures found ==> cont == Named(containers, name).value
  {
    found := false;
    cont := Container([], map[], 0);
    for i := 0 to |containers|
      invariant found == Named(containers[..i], name).Some?
      invariant found ==> cont == Named(containers[..i], name).value
    {
      var c := containers[i];
      ghost var before := found;
      for j := 0 to |c.names|
        invariant found == (before || "/" + name in c.names[..j])
        invariant found ==> cont == (if "/" + name in c.names[..j] then c else Named(containers[..i], name).value)
      {
        if c.names[j] == "/" + name {
          found := true;
          cont := c;
        }
        assert c.names[..j + 1] == c.names[..j] + [c.names[j]];
      }
      assert c.names[..|c.names|] == c.names;
      assert containers[..i + 1][..i] == containers[..i];
    }
    assert containers[..|containers|] == containers;
  }

  /** The given references, each mapped to one image. */
  function Tagged(tags: seq<string>, img: Image): map<string, Image>
  {
    map t | t in tags :: img
  }

  /** The index entries one image contributes: each of its references. */
  function TagsOf(img: Image): map<string, Image>
  {
    Tagged(img.repoTags, img)
  }

  /** launch's imageIndex: every reference maps to the last listed image carrying it. */
  function ImageIndex(images: seq<Image>): map<string, Image>
    decreases |images|
  {
    if images == [] then map[] else ImageIndex(images[..|images| - 1]) + TagsOf(images[|images| - 1])
  }

  /** Indexing one more reference of an image. */
  lemma TagsStep(index: map<string, Image>, tags: seq<string>, j: nat, img: Image)
    requires j < |tags|
    ensures index + Tagged(tags[..j + 1], img) == (index + Tagged(tags[..j], img))[tags[j] := img]
  {
    assert tags[..j + 1] == tags[..j] + [tags[j]];
  }

  /** The inner loop of imageIndex's construction: one image's references. */
  method AddTags(index: map<string, Image>, image: Image) returns (r: map<string, Image>)
    ensures r == index + TagsOf(image)
  {
    r := index;
    for j := 0 to |image.repoTags|
      invariant r == index + Tagged(image.repoTags[..j], image)
    {
      TagsStep(index, image.repoTags, j, image);
      r := r[image.repoTags[j] := image];
    }
    assert image.repoTags[..|image.repoTags|] == image.repoTags;
  }

  /** The loop that builds imageIndex. */
  method BuildImageIndex(images: seq<Image>) returns (index: map<string, Image>)
    ensures index == ImageIndex(images)
  {
    index := map[];
    for i := 0 to |images|
      invariant index == ImageIndex(images[..i])
    {
      index := AddTags(index, images[i]);
      assert images[..i + 1][..i] == images[..i];
    }
    assert images[..|images|] == images;
  }

  /** A reference is indexed exactly when some image carries it, and it maps to the last such image. */
  lemma {:induction false} ImageIndexLookup(images: seq<Image>, ref: string)
    ensures ref in ImageIndex(images) <==> exists i :: 0 <= i < |images| && ref in images[i].repoTags
    ensures ref in ImageIndex(images) ==>
      exists i :: 0 <= i < |images| && ImageIndex(images)[ref] == images[i] && ref in images[i].repoTags &&
        forall j :: i < j < |images| ==> ref !in images[j].repoTags
    decreases |images|
  {
    if images != [] {
      var prefix := images[..|images| - 1];
      ImageIndexLookup(prefix, ref);
      if ref !in images[|images| - 1].repoTags {
        if exists i :: 0 <= i < |images| && ref in images[i].repoTags {
          var i :| 0 <= i < |images| && ref in images[i].repoTags;
          assert prefix[i] == images[i];
        }
        if ref in ImageIndex(prefix) {
          var i :| 0 <= i < |prefix| && ImageIndex(prefix)[ref] == prefix[i] && ref in prefix[i].repoTags &&
            forall j :: i < j < |prefix| ==> ref !in prefix[j].repoTags;
          assert images[i] == prefix[i];
          forall j | i < j < |images| ensures ref !in images[j].repoTags {
            if j < |prefix| { assert images[j] == prefix[j]; }
          }
        }
      }
    }
  }

  /** The reference launch looks an image up by. */
  function ImageRef(s: Service): string
  {
    s.repo + ":" + s.tag
  }

  /** The running container's `sum` label is not the service's fingerprint. */
  predicate Drifted(s: Service, c: Container, h: Hasher)
  {
    Label(c, "sum") != Sum(s, h)
  }

  /** An image indexed under the service's reference is strictly newer than the container. */
  predicate Stale(s: Service, c: Container, index: map<string, Image>)
  {
    ImageRef(s) in index && index[ImageRef(s)].created > c.created
  }

  /** The stored service `n` has a container whose `sum` label is not its fingerprint. */
  predicate IsChanged(services: map<string, Service>, n: string, cs: seq<Container>, h: Hasher)
  {
    n in services && Named(cs, n).Some? && Drifted(services[n], Named(cs, n).value, h)
  }

  /** The stored service `n` has a container older than the image indexed under its reference. */
  predicate IsOutdated(services: map<string, Service>, n: string, cs: seq<Container>, index: map<string, Image>)
  {
    n in services && Named(cs, n).Some? && Stale(services[n], Named(cs, n).value, index)
  }

  /** Names among `keys` whose container has drifted. */
  function ChangedAmong(services: map<string, Service>, keys: set<string>, cs: seq<Container>, h: Hasher): set<string>
  {
    set n | n in keys && IsChanged(services, n, cs, h)
  }

  /** Names among `keys` whose container runs an older image than the indexed one. */
  function OutdatedAmong(services: map<string, Service>, keys: set<string>, cs: seq<Container>, index: map<string, Image>): set<string>
  {
    set n | n in keys && IsOutdated(services, n, cs, index)
  }

  /** Every service without a container can be launched (GenerateBash needs two tokens). */
  predicate LaunchReady(services: map<string, Service>, cs: seq<Container>)
  {
    forall n :: n in services && Named(cs, n).None? ==> HasTwoTokens(services[n])
  }

  /** The commands launch runs for the names among `keys`: one per service without a container. */
  function Launches(services: map<string, Service>, keys: set<string>, cs: seq<Container>, h: Hasher): map<string, seq<string>>
  {
    map n | n in keys && n in services && Named(cs, n).None? && HasTwoTokens(services[n]) :: LaunchCommand(services[n], h)
  }

  /** How the launch summaries grow when one more name is reconciled. */
  lemma ChangedStep(services: map<string, Service>, done: set<string>, name: string, cs: seq<Container>, h: Hasher)
    ensures ChangedAmong(services, done + {name}, cs, h) ==
      ChangedAmong(services, done, cs, h) + (if IsChanged(services, name, cs, h) then {name} else {})
  {
  }

  lemma OutdatedStep(services: map<string, Service>, done: set<string>, name: string, cs: seq<Container>, index: map<string, Image>)
    ensures OutdatedAmong(services, done + {name}, cs, index) ==
      OutdatedAmong(services, done, cs, index) + (if IsOutdated(services, name, cs, index) then {name} else {})
  {
  }

  lemma LaunchesStep(services: map<string, Service>, done: set<string>, name: string, cs: seq<Container>, h: Hasher)
    requires name in services
    ensures Named(cs, name).Some? ==> Launches(services, done + {name}, cs, h) == Launches(services, done, cs, h)
    ensures Named(cs, name).None? && HasTwoTokens(services[name]) ==>
      Launches(services, done + {name}, cs, h) == Launches(services, done, cs, h)[name := LaunchCommand(services[name], h)]
  {
  }

  /** One reconciled name, in terms of what the per-service body found for it. */
  lemma ReconcileStep(services: map<string, Service>, done: set<string>, name: string, cs: seq<Container>,
                      index: map<string, Image>, h: Hasher, changed: bool, outdated: bool, argv: Option<seq<string>>)
    requires name in services && (Named(cs, name).None? ==> HasTwoTokens(services[name]))
    requires changed == (Named(cs, name).Some? && Drifted(services[name], Named(cs, name).value, h))
    requires outdated == (Named(cs, name).Some? && Stale(services[name], Named(cs, name).value, index))
    requires argv == if Named(cs, name).None? then Some(LaunchCommand(services[name], h)) else None
    ensures ChangedAmong(services, done + {name}, cs, h) == ChangedAmong(services, done, cs, h) + (if changed then {name} else {})
    ensures OutdatedAmong(services, done + {name}, cs, index) == OutdatedAmong(services, done, cs, index) + (if outdated then {name} else {})
    ensures Launches(services, done + {name}, cs, h) ==
      if argv.Some? then Launches(services, done, cs, h)[name := argv.value] else Launches(services, done, cs, h)
  {
    ChangedStep(services, done, name, cs, h);
    OutdatedStep(services, done, name, cs, index);
    LaunchesStep(services, done, name, cs, h);
  }

  /** Flags added one name at a time accumulate into one union. */
  lemma UnionRegroup(a: set<string>, b: set<string>, c: set<string>)
    ensures (a + b) + c == a + (b + c)
  {
  }

  /** The containers launch works with: a failed listing leaves the list empty. */
  function Listed(containers: Result<seq<Container>>): seq<Container>
  {
    if containers.Ok? then containers.value else []
  }

  /**
   * launch: given whether the engine client could be created and the outcome
   * of listing containers and images, flags drift (only ever adding flags)
   * and returns the command run for each service that has no container.
   * Only the client and the image listing can fail it; the container
   * listing's error is overwritten by the image listing's.
   */
  method Launch(st: Store, clientOk: bool, containers: Result<seq<Container>>, images: Result<seq<Image>>, h: Hasher)
    returns (err: Option<string>, launched: map<string, seq<string>>)
    requires st.Valid()
    requires clientOk && images.Ok? ==> LaunchReady(st.services, Listed(containers))
    modifies st
    ensures st.Valid()
    ensures st.services == old(st.services) && st.badServiceFiles == old(st.badServiceFiles)
    ensures (!clientOk || images.Err?) ==>
      && err.Some? && launched == map[]
      && st.serviceChanged == old(st.serviceChanged) && st.serviceOutdated == old(st.serviceOutdated)
    ensures clientOk && images.Err? ==> err == Some(images.error)
    ensures clientOk && images.Ok? ==>
      && err.None?
      && st.serviceChanged == old(st.serviceChanged) + ChangedAmong(st.services, st.services.Keys, Listed(containers), h)
      && st.serviceOutdated == old(st.serviceOutdated) + OutdatedAmong(st.services, st.services.Keys, Listed(containers), ImageIndex(images.value))
      && launched == Launches(st.services, st.services.Keys, Listed(containers), h)
  {
    launched := map[];
    if !clientOk {
      return Some("cannot create docker client"), launched;
    }
    var cs := Listed(containers);
    var index := BuildImageIndex(if images.Ok? then images.value else []);
    if images.Err? {
      return Some(images.error), launched;
    }
    err := None;
    launched := Reconcile(st, cs, index, h);
  }

  /**
   * The body of launch's per-service loop for the service stored under
   * `name`: whether it has drifted, whether its image is newer, and the
   * command launched when it has no container.
   */
  method Inspect(service: Service, name: string, cs: seq<Container>, index: map<string, Image>, h: Hasher)
    returns (changed: bool, outdated: bool, argv: Option<seq<string>>)
    requires Named(cs, name).None? ==> HasTwoTokens(service)
    ensures changed == (Named(cs, name).Some? && Drifted(service, Named(cs, name).value, h))
    ensures outdated == (Named(cs, name).Some? && Stale(service, Named(cs, name).value, index))
    ensures argv == if Named(cs, name).None? then Some(LaunchCommand(service, h)) else None
  {
    changed, outdated, argv := false, false, None;
    var found, cont := FindContainer(cs, name);
    if found {
      if Label(cont, "sum") != Sum(service, h) {
        changed := true;
      }
      var ref := service.repo + ":" + service.tag;
      if ref in index && index[ref].created > cont.created {
        outdated := true;
      }
    } else {
      var command := GenerateBash(service, h);
      argv := Some(command);
    }
  }

  /** Sets a service's changed and outdated flags as inspection found them; flags are only ever added. */
  method Flag(st: Store, name: string, changed: bool, outdated: bool)
    modifies st
    ensures st.serviceChanged == old(st.serviceChanged) + (if changed then {name} else {})
    ensures st.serviceOutdated == old(st.serviceOutdated) + (if outdated then {name} else {})
    ensures st.services == old(st.services) && st.badServiceFiles == old(st.badServiceFiles)
  {
    if changed {
      st.serviceChanged := st.serviceChanged + {name};  // service.name == name in a valid store
    }
    if outdated {
      st.serviceOutdated := st.serviceOutdated + {name};
    }
  }

  /** The per-service loop of launch, over every stored name. */
  method Reconcile(st: Store, cs: seq<Container>, index: map<string, Image>, h: Hasher)
    returns (launched: map<string, seq<string>>)
    requires st.Valid()
    requires LaunchReady(st.services, cs)
    modifies st
    ensures st.Valid()
    ensures st.services == old(st.services) && st.badServiceFiles == old(st.badServiceFiles)
    ensures st.serviceChanged == old(st.serviceChanged) + ChangedAmong(st.services, st.services.Keys, cs, h)
    ensures st.serviceOutdated == old(st.serviceOutdated) + OutdatedAmong(st.services, st.services.Keys, cs, index)
    ensures launched == Launches(st.services, st.services.Keys, cs, h)
  {
    launched := map[];
    var services := st.services;
    ghost var changed0, outdated0 := st.serviceChanged, st.serviceOutdated;
    var todo := services.Keys;
    ghost var done: set<string> := {};
    while todo != {}
      invariant todo + done == services.Keys && todo !! done
      invariant st.services == services && st.badServiceFiles == old(st.badServiceFiles)
      invariant st.serviceChanged == changed0 + ChangedAmong(services, done, cs, h)
      invariant st.serviceOutdated == outdated0 + OutdatedAmong(services, done, cs, index)
      invariant launched == Launches(services, done, cs, h)
      decreases todo
    {
      var name :| name in todo;
      var service := services[name];
      var changed, outdated, argv := Inspect(service, name, cs, index, h);
      ReconcileStep(services, done, name, cs, index, h, changed, outdated, argv);
      Flag(st, name, changed, outdated);
      UnionRegroup(changed0, ChangedAmong(services, done, cs, h), if changed then {name} else {});
      UnionRegroup(outdated0, OutdatedAmong(services, done, cs, index), if outdated then {name} else {});
      if argv.Some? {
        launched := launched[name := argv.value];
      }
      todo := todo - {name};
      done := done + {name};
    }
  }

  /**
   * A service whose container carries the current fingerprint and runs the
   * newest indexed image is neither flagged nor relaunched.
   */
  lemma DriftConverged(services: map<string, Service>, cs: seq<Container>, index: map<string, Image>, h: Hasher, n: string)
    requires n in services && Named(cs, n).Some?
    requires Label(Named(cs, n).value, "sum") == Sum(services[n], h)
    requires !Stale(services[n], Named(cs, n).value, index)
    ensures n !in ChangedAmong(services, services.Keys, cs, h)
    ensures n !in OutdatedAmong(services, services.Keys, cs, index)
    ensures n !in Launches(services, services.Keys, cs, h)
  {
  }

  /** A failed container listing makes launch start every stored service again. */
  lemma UnlistedContainersLaunchAll(services: map<string, Service>, h: Hasher)
    requires LaunchReady(services, Listed(Err("cannot list containers")))
    ensures Launches(services, services.Keys, Listed(Err("cannot list containers")), h).Keys == services.Keys
  {
  }

  // ---------------------------------------------------------------- remove

  /** The outdated flags remove keeps: those whose container WAS removed (the error test is inverted). */
  function OutdatedKept(flags: set<string>, removed: string -> bool): set<string>
  {
    set n | n in flags && removed(n)
  }

  /** The changed flags remove keeps: those whose container could not be removed. */
  function ChangedKept(flags: set<string>, removed: string -> bool): set<string>
  {
    set n | n in flags && !removed(n)
  }

  /**
   * Finding: an outdated flag survives exactly the removals that succeed and
   * is dropped by those that fail, so when every removal succeeds no flag is
   * ever cleared and each cycle removes the freshly relaunched container again.
   */
  lemma OutdatedFlagOutlivesRemoval(flags: set<string>, removed: string -> bool)
    ensures forall n :: n in flags ==> (n in OutdatedKept(flags, removed) <==> removed(n))
    ensures (forall n :: n in flags ==> removed(n)) ==> OutdatedKept(flags, removed) == flags
  {
  }

  /**
   * The rule applied to changed flags, which the outdated loop evidently
   * meant too: a flag stays only while its container could not be removed,
   * and once every removal succeeds no flag is left.
   */
  lemma ChangedFlagsSettle(flags: set<string>, removed: string -> bool)
    ensures ChangedKept(flags, removed) <= flags
    ensures forall n :: n in flags ==> (n in ChangedKept(flags, removed) <==> !removed(n))
    ensures (forall n :: n in flags ==> removed(n)) ==> ChangedKept(flags, removed) == {}
  {
  }

  /**
   * remove: tries to remove the container of every outdated, then every
   * changed service (the outcomes are given per loop, true meaning the
   * removal succeeded). A changed flag is cleared when its removal
   * succeeded; an outdated flag is cleared when its removal FAILED. Always nil.
   */
  method Remove(st: Store, outdatedRemoved: string -> bool, changedRemoved: string -> bool) returns (err: Option<string>)
    requires st.Valid()
    modifies st
    ensures st.Valid() && err.None?
    ensures st.services == old(st.services) && st.badServiceFiles == old(st.badServiceFiles)
    ensures st.serviceOutdated == OutdatedKept(old(st.serviceOutdated), outdatedRemoved)
    ensures st.serviceChanged == ChangedKept(old(st.serviceChanged), changedRemoved)
  {
    var todo := st.serviceOutdated;
    while todo != {}
      invariant todo <= old(st.serviceOutdated)
      invariant st.services == old(st.services) && st.badServiceFiles == old(st.badServiceFiles)
      invariant st.serviceChanged == old(st.serviceChanged)
      invariant st.serviceOutdated == set n | n in old(st.serviceOutdated) && (n in todo || outdatedRemoved(n))
      invariant st.Valid()
      decreases todo
    {
      var name :| name in todo;
      if !outdatedRemoved(name) {
        st.serviceOutdated := st.serviceOutdated - {name};
      }
      todo := todo - {name};
    }
    todo := st.serviceChanged;
    while todo != {}
      invariant todo <= old(st.serviceChanged)
      invariant st.services == old(st.services) && st.badServiceFiles == old(st.badServiceFiles)
      invariant st.serviceOutdated == set n | n in old(st.serviceOutdated) && outdatedRemoved(n)
      invariant st.serviceChanged == set n | n in old(st.serviceChanged) && (n in todo || !changedRemoved(n))
      invariant st.Valid()
      decreases todo
    {
      var name :| name in todo;
      if changedRemoved(name) {
        st.serviceChanged := st.serviceChanged - {name};
      }
      todo := todo - {name};
    }
    err := None;
  }
}
