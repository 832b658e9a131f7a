/** The machine the downloaders run on: a filesystem and a network.

    The filesystem maps paths to their bytes.  The network is a queue of canned
    replies, one per GET, standing for whatever the servers would answer; once
    the queue is empty every further GET fails at the transport layer.  The
    ghost `requested` log records the URL of every GET, so that contracts can
    say how many requests an operation made and for what.
 */
module Host {

  newtype Byte = b: int | 0 <= b < 256

  type Path = string

  type Files = map<Path, seq<Byte>>

  /** How a 200 response body ended on the wire. */
  datatype StreamEnd =
    | Complete     // the body arrived in full
    | Broken       // the transfer raised part-way (a `RequestException` or any other error)
    | Interrupted  // the user pressed Ctrl-C part-way through the body

  /** The outcome of one GET. */
  datatype Reply =
    | TransportError  // `requests.get` itself raised: connection refused, timeout, DNS
    | Interrupt       // Ctrl-C while waiting for the response, before any byte was written
    | Response(status: int, body: seq<Byte>, end: StreamEnd)

  /** The reply the next GET receives. */
  function Head(q: seq<Reply>): Reply {
    if q == [] then TransportError else q[0]
  }

  /** The queue after one GET. */
  function Tail(q: seq<Reply>): seq<Reply> {
    if q == [] then [] else q[1..]
  }

  /** The queue after `n` GETs. */
  function Drop(q: seq<Reply>, n: nat): seq<Reply> {
    if n == 0 then q else Drop(Tail(q), n - 1)
  }

  /** `n` GETs of `url`, as the request log shows them. */
  function Repeat(url: string, n: nat): (r: seq<string>)
    ensures |r| == n && forall i :: 0 <= i < n ==> r[i] == url
  {
    seq(n, _ => url)
  }

  class Machine {
    var files: Files
    var replies: seq<Reply>
    ghost var requested: seq<string>

    constructor (files0: Files, replies0: seq<Reply>)
      ensures files == files0 && replies == replies0 && requested == []
    {
      files := files0;
      replies := replies0;
      requested := [];
    }

    /** `os.path.exists`. */
    function Exists(path: Path): bool
      reads this
    {
      path in files
    }

    /** One HTTP GET of `url`. */
    method Get(url: string) returns (r: Reply)
      modifies this
      ensures r == Head(old(replies)) && replies == Tail(old(replies))
      ensures files == old(files) && requested == old(requested) + [url]
    {
      r := Head(replies);
      replies := Tail(replies);
      requested := requested + [url];
    }

    /** Opens `path` for writing, truncating it, and writes `body`. */
    method Write(path: Path, body: seq<Byte>)
      modifies this
      ensures files == old(files)[path := body]
      ensures replies == old(replies) && requested == old(requested)
    {
      files := files[path := body];
    }

    /** `os.remove`; every caller checks existence first. */
    method Remove(path: Path)
      modifies this
      ensures files == old(files) - {path}
      ensures replies == old(replies) && requested == old(requested)
    {
      files := files - {path};
    }
  }

  lemma {:induction false} DropTail(q: seq<Reply>, n: nat)
    ensures Drop(Tail(q), n) == Drop(q, n + 1)
  {
  }

  lemma RepeatSnoc(url: string, n: nat)
    ensures Repeat(url, n) + [url] == Repeat(url, n + 1)
  {
    var a, b := Repeat(url, n) + [url], Repeat(url, n + 1);
    assert |a| == |b|;
    forall i | 0 <= i < |a|
      ensures a[i] == b[i]
    {
      if i < n {
        assert a[i] == Repeat(url, n)[i];
      }
    }
  }
}
