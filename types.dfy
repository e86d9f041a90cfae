/**
 * The service record of types/types.go: validation, the content
 * fingerprint `Sum`, the launch command `GenerateBash`, and the wire form
 * written by `Marshal` and read back by `Unmarshal`.
 */
module Types {
  import opened Wrappers
  import opened Text
  import Base64

  /** A `time.Time` instant, as an integer; `ZeroTime` is Go's zero `time.Time{}`. */
  type Time = int
  const ZeroTime: Time := 0

  /** One service definition (types/types.go:13-23). */
  datatype Service = Service(
    name: string,
    bash: string,
    repo: string,
    tag: string,
    node: string,        // regular expression over node names
    lastUpdated: Time,   // not part of the JSON encoding
    pullEvery: int)

  /** The zero `types.Service{}` that `putServices` decodes into. */
  const ZeroService: Service := Service("", "", "", "", "", ZeroTime, 0)

  /** SHA-1 of its input formatted with `%x`; deterministic, otherwise unconstrained. */
  type Hasher = string -> string

  /** Valid: an error exactly when the template does not mention the repository. */
  function Valid(s: Service): (err: Option<string>)
    ensures err.None? <==> exists i :: OccursAt(s.bash, s.repo, i)
  {
    ContainsIff(s.bash, s.repo);
    if !Contains(s.bash, s.repo) then Some("Service bash command does not contain repo") else None
  }

  /** An empty repository occurs in every template, so it always validates. */
  lemma EmptyRepoIsValid(s: Service)
    requires s.repo == ""
    ensures Valid(s).None?
  {
    ContainsEmpty(s.bash);
  }

  /** The text the fingerprint hashes. */
  function Fingerprinted(s: Service): string
  {
    s.bash + s.repo + s.tag + s.node
  }

  /** Sum: the hash of Bash+Repo+Tag+Node. */
  function Sum(s: Service, h: Hasher): (r: string)
    ensures r == h(s.bash + s.repo + s.tag + s.node)
  {
    h(Fingerprinted(s))
  }

  /** Name, LastUpdated and PullEvery never influence the fingerprint. */
  lemma SumIgnoresMetadata(s: Service, name: string, t: Time, pullEvery: int, h: Hasher)
    ensures Sum(s.(name := name, lastUpdated := t, pullEvery := pullEvery), h) == Sum(s, h)
  {
  }

  /** Records whose four fingerprinted fields concatenate to the same text share a fingerprint. */
  lemma SumOfEqualConcatenations(a: Service, b: Service, h: Hasher)
    requires a.bash + a.repo + a.tag + a.node == b.bash + b.repo + b.tag + b.node
    ensures Sum(a, h) == Sum(b, h)
  {
  }

  /** Moving text across a field boundary is invisible to the fingerprint, whatever the hash. */
  lemma FieldBoundaryCollision(h: Hasher)
    ensures var a := Service("web", "run web", "web", "1", "", 5, 0);
            var b := Service("web", "run web", "web1", "", "", 5, 0);
            a != b && Sum(a, h) == Sum(b, h)
  {
    assert "run web" + "web" + "1" + "" == "run web" + "web1" + "" + "";
  }

  /**
   * The rewrite GenerateBash applies to one token: a token mentioning the
   * repository keeps what precedes its first ':' and gets ":" + tag; any
   * other token is left alone.
   */
  function RewriteToken(v: string, repo: string, tag: string): (r: string)
    ensures !Contains(v, repo) ==> r == v
    ensures Contains(v, repo) ==>
      exists pre :: IsPrefix(pre, v) && ':' !in pre && (|pre| == |v| || v[|pre|] == ':') && r == pre + ":" + tag
  {
    SplitHead(v, ':');
    if !Contains(v, repo) then v
    else if ':' in v then Split(v, ':')[0] + ":" + tag
    else
      assert Split(v, ':')[0] == v;
      v + ":" + tag
  }

  /** Every token of a template, rewritten. */
  function RewriteAll(parts: seq<string>, repo: string, tag: string): (r: seq<string>)
    ensures |r| == |parts|
  {
    seq(|parts|, k requires 0 <= k < |parts| => RewriteToken(parts[k], repo, tag))
  }

  /** GenerateBash indexes the second token unconditionally. */
  predicate HasTwoTokens(s: Service)
  {
    |Split(s.bash, ' ')| >= 2
  }

  /** The launch command GenerateBash returns, as a value. */
  function LaunchCommand(s: Service, h: Hasher): seq<string>
    requires HasTwoTokens(s)
  {
    var p := RewriteAll(Split(s.bash, ' '), s.repo, s.tag);
    [p[0], p[1]] + ["--name", s.name, "-d", "--label", "sum=" + Sum(s, h)] + p[2..]
  }

  /**
   * GenerateBash: splits the template on spaces, rewrites the image tokens in
   * place, and injects the container name, detached mode and the `sum` label
   * after the first two tokens.
   */
  method GenerateBash(s: Service, h: Hasher) returns (argv: seq<string>)
    requires HasTwoTokens(s)
    ensures argv == LaunchCommand(s, h)
  {
    var tokens := Split(s.bash, ' ');
    var parts := new string[|tokens|](k requires 0 <= k < |tokens| => tokens[k]);
    for i := 0 to parts.Length
      invariant forall k :: 0 <= k < i ==> parts[k] == RewriteToken(tokens[k], s.repo, s.tag)
      invariant forall k :: i <= k < parts.Length ==> parts[k] == tokens[k]
    {
      var v := parts[i];
      if !Contains(v, s.repo) {
        continue;
      }
      if ':' in v {
        parts[i] := Split(v, ':')[0] + ":" + s.tag;
      } else {
        parts[i] := parts[i] + ":" + s.tag;
      }
    }
    assert parts[..] == RewriteAll(tokens, s.repo, s.tag);
    argv := [parts[0], parts[1]] + ["--name", s.name, "-d", "--label", "sum=" + Sum(s, h)] + parts[2..];
  }

  /**
   * The shape of the launch command: the first two (rewritten) tokens, the
   * five injected arguments, then the remaining tokens in order; tokens
   * without the repository pass through unchanged.
   */
  lemma {:induction false} LaunchCommandShape(s: Service, h: Hasher)
    requires HasTwoTokens(s)
    ensures var tokens := Split(s.bash, ' ');
            var argv := LaunchCommand(s, h);
            && |argv| == |tokens| + 5
            && argv[0] == RewriteToken(tokens[0], s.repo, s.tag)
            && argv[1] == RewriteToken(tokens[1], s.repo, s.tag)
            && argv[2..7] == ["--name", s.name, "-d", "--label", "sum=" + Sum(s, h)]
            && (forall k :: 2 <= k < |tokens| ==> argv[k + 5] == RewriteToken(tokens[k], s.repo, s.tag))
            && (forall k :: 2 <= k < |tokens| && !Contains(tokens[k], s.repo) ==> argv[k + 5] == tokens[k])
  {
  }

  /** Splitting a template that is `w` + " " + rest. */
  lemma SplitWord(w: string, rest: string)
    requires ' ' !in w
    ensures Split(w + " " + rest, ' ') == [w] + Split(rest, ' ')
  {
    SplitAtSeparator(w, ' ', rest);
  }

  /**
   * A template "<command> <verb> <image>" whose image token is exactly the
   * repository, and whose first two words do not mention it, launches
   * `command verb --name <name> -d --label sum=<Sum> repo:tag`;
   * "docker run myrepo/app" with tag "v2" and name "app1" thus launches
   * `docker run --name app1 -d --label sum=<Sum> myrepo/app:v2`.
   */
  lemma {:induction false} ThreeWordTemplate(s: Service, command: string, verb: string, h: Hasher)
    requires s.bash == command + " " + verb + " " + s.repo
    requires ' ' !in command && ' ' !in verb && ' ' !in s.repo && ':' !in s.repo
    requires !Contains(command, s.repo) && !Contains(verb, s.repo)
    ensures HasTwoTokens(s)
    ensures LaunchCommand(s, h) == [command, verb, "--name", s.name, "-d", "--label", "sum=" + Sum(s, h), s.repo + ":" + s.tag]
  {
    ThreeWordSplit(command, verb, s.repo);
    RepoTokenRetagged(s.repo, s.tag);
    var tagged := s.repo + ":" + s.tag;
    var p := RewriteAll([command, verb, s.repo], s.repo, s.tag);
    assert p[0] == command && p[1] == verb && p[2] == tagged;
    assert p[2..] == [tagged];
  }

  /** Three space-free words joined by spaces split back into those words. */
  lemma ThreeWordSplit(command: string, verb: string, image: string)
    requires ' ' !in command && ' ' !in verb && ' ' !in image
    ensures Split(command + " " + verb + " " + image, ' ') == [command, verb, image]
  {
    assert command + " " + verb + " " + image == command + " " + (verb + " " + image);
    SplitWord(command, verb + " " + image);
    SplitWord(verb, image);
    SplitWithoutSeparator(image, ' ');
  }

  /** A colon-free token that is exactly the repository gets ":" and the tag appended. */
  lemma RepoTokenRetagged(repo: string, tag: string)
    requires ':' !in repo
    ensures RewriteToken(repo, repo, tag) == repo + ":" + tag
  {
    assert IsPrefix(repo, repo);
    ContainsIff(repo, repo);
    assert OccursAt(repo, repo, 0);
  }

  /**
   * An image reference on a registry with a port loses everything after the
   * host once retagged: the first ':' separates the port, not the tag.
   */
  lemma RewriteDropsRegistryPort(host: string, rest: string, oldTag: string, tag: string)
    requires ':' !in host
    ensures var repo := host + ":" + rest;
            RewriteToken(repo + ":" + oldTag, repo, tag) == host + ":" + tag
  {
    var repo := host + ":" + rest;
    var v := repo + ":" + oldTag;
    assert v == host + [':'] + (rest + ":" + oldTag);
    SplitAtSeparator(host, ':', rest + ":" + oldTag);
    assert IsPrefix(repo, v);
    assert v[|host|] == ':';
  }

  /** With an empty repository every token, the command itself included, is retagged. */
  lemma EmptyRepoRetagsEveryToken(v: string, tag: string)
    requires ':' !in v
    ensures RewriteToken(v, "", tag) == v + ":" + tag
  {
    ContainsEmpty(v);
  }

  /** The JSON-visible fields of a service: everything but LastUpdated (tagged `json:"-"`). */
  datatype Wire = Wire(name: string, bash: string, repo: string, tag: string, node: string, pullEvery: int)

  function WireOf(s: Service): Wire
  {
    Wire(s.name, s.bash, s.repo, s.tag, s.node, s.pullEvery)
  }

  /** json.Unmarshal into an existing record: the decoded fields overwrite, LastUpdated stays. */
  function Fill(into: Service, w: Wire): Service
  {
    into.(name := w.name, bash := w.bash, repo := w.repo, tag := w.tag, node := w.node, pullEvery := w.pullEvery)
  }

  /** encoding/json for a service record, as a pair of functions. */
  datatype JsonCodec = JsonCodec(encode: Wire -> seq<Base64.Byte>, decode: seq<Base64.Byte> -> Option<Wire>)

  /** Marshal: base64 (section 4 of RFC 4648) of the JSON encoding. */
  function Marshal(s: Service, json: JsonCodec): (r: string)
    ensures Base64.Decode(r) == Some(json.encode(WireOf(s)))
  {
    Base64.RoundTrip(json.encode(WireOf(s)));
    Base64.Encode(json.encode(WireOf(s)))
  }

  /**
   * Unmarshal into the record behind the receiver: the new record and the
   * error. Input that is not base64 leaves the record as it was.
   */
  function Unmarshal(into: Service, src: string, json: JsonCodec): (r: (Service, Option<string>))
    ensures Base64.Decode(src).None? ==> r.0 == into && r.1.Some?
    ensures r.0.lastUpdated == into.lastUpdated
  {
    match Base64.Decode(src)
    case None => (into, Some("illegal base64 data"))
    case Some(bytes) =>
      match json.decode(bytes)
      case None => (into, Some("invalid JSON"))
      case Some(w) => (Fill(into, w), None)
  }

  /**
   * Unmarshal(Marshal(s)) restores every field of `s` except LastUpdated,
   * which keeps the receiver's value, provided the JSON layer round-trips.
   */
  lemma MarshalRoundTrip(s: Service, into: Service, json: JsonCodec)
    requires json.decode(json.encode(WireOf(s))) == Some(WireOf(s))
    ensures Unmarshal(into, Marshal(s, json), json) == (s.(lastUpdated := into.lastUpdated), None)
  {
    Base64.RoundTrip(json.encode(WireOf(s)));
  }
}
