/**
 * What the core observes of its surroundings, as plain values: directory
 * entries (with the outcome of reading and parsing each file), containers
 * and images as the Docker engine lists them, and cluster members as the
 * membership library reports them.
 */
module Host {
  import opened Wrappers

  /** What reading a definition file produced; `parsed` is the parser's verdict for the file's format. */
  datatype FileContent<S> = Unreadable | Readable(parsed: Option<S>)

  /** One entry of `ioutil.ReadDir`, with its modification time as an integer instant. */
  datatype FileEntry<S> = FileEntry(name: string, content: FileContent<S>, modTime: int)

  /** A container as `ListContainers` reports it (`Names` carry a leading '/'). */
  datatype Container = Container(names: seq<string>, labels: map<string, string>, created: int)

  /** An image as `ListImages` reports it, with its "repo:tag" references. */
  datatype Image = Image(repoTags: seq<string>, created: int)

  /** A cluster member as the membership library reports it. */
  datatype Node = Node(name: string, addr: string, port: int)

  /** Regular-expression matching: does `pattern` match `subject`? */
  type Matcher = (string, string) -> bool

  /** The value of a container label; a missing label reads as the empty string, as a Go map does. */
  function Label(c: Container, key: string): string
  {
    if key in c.labels then c.labels[key] else ""
  }
}
