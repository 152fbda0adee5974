/**
  One request/reply round trip (`make_request`). The terminal is an oracle:
  for every probe kind it gives one fixed outcome of the system calls the
  round trip makes. The reply is stored into the caller's string, which
  keeps its prior value on the paths that do not assign it.
 */
module Channel {
  import opened Terminal
  import opened Text
  import opened Tables

  /** The value a reply field holds before its query was sent. */
  const NotIssuedText: string := "<NOT ISSUED>"
  /** The value a reply field receives when the query timed out. */
  const NoReplyText: string := "<NO REPLY>"
  /** Size of the single read buffer. */
  const ReadChunk: nat := 4096

  /** What the terminal device does with one query. */
  datatype Answer =
    | ModeRefused          // switching to raw mode failed (no access to the terminal)
    | WriteFail            // the request was not written in full
    | NoReply              // `poll` timed out
    | ReadFail             // `poll` reported input but `read` returned an error
    | Data(bytes: string)  // the bytes waiting to be read (an empty string: `read` returned 0)

  /** The terminal: a fixed outcome per probe kind. */
  datatype Oracle = Oracle(da1: Answer, da2: Answer, da3: Answer, q: Answer, tn: Answer, osc702: Answer)
  {
    function AnswerTo(p: Probe): Answer
    {
      match p
      case Da1 => da1
      case Da2 => da2
      case Da3 => da3
      case Q => q
      case Tn => tn
      case Osc702 => osc702
    }
  }

  /**
    The end of `make_request`: drop the expected framing when the reply is
    longer than it and carries both parts. The result is never longer than
    the reply.
   */
  function Strip(res: string, prefix: string, suffix: string): (r: string)
    ensures |r| <= |res|
  {
    if |res| > |prefix| + |suffix| && StartsWith(res, prefix) && EndsWith(res, suffix)
    then res[|prefix|..|res| - |suffix|]
    else res
  }

  /** A payload as the terminal frames it. */
  function Frame(payload: string, prefix: string, suffix: string): string
  {
    prefix + payload + suffix
  }

  /** Stripping undoes the framing of any non-empty payload. */
  lemma StripFrame(payload: string, prefix: string, suffix: string)
    requires payload != []
    ensures Strip(Frame(payload, prefix, suffix), prefix, suffix) == payload
  {
    var f := Frame(payload, prefix, suffix);
    assert f[..|prefix|] == prefix;
    assert f[|f| - |suffix|..] == suffix;
    assert f[|prefix|..|f| - |suffix|] == payload;
  }

  /** A frame around an empty payload is not long enough and is kept verbatim. */
  lemma StripKeepsEmptyFrame(prefix: string, suffix: string)
    ensures Strip(Frame([], prefix, suffix), prefix, suffix) == prefix + suffix
  {
  }

  /** Whenever stripping changes a reply, the reply was the framing around a non-empty result. */
  lemma StripChanged(res: string, prefix: string, suffix: string)
    requires Strip(res, prefix, suffix) != res
    ensures Strip(res, prefix, suffix) != []
    ensures res == Frame(Strip(res, prefix, suffix), prefix, suffix)
  {
    var body := res[|prefix|..|res| - |suffix|];
    assert res == res[..|prefix|] + body + res[|res| - |suffix|..];
  }

  /** The stored reply and the returned "failed" flag. */
  datatype Exchanged = Exchanged(reply: string, failed: bool)

  function Min(a: nat, b: nat): nat
  {
    if a <= b then a else b
  }

  /** The bytes a single `read` into the 4096-byte buffer delivers. */
  function Chunk(bytes: string): (c: string)
    ensures |c| <= ReadChunk
    ensures StartsWith(bytes, c)
    ensures |bytes| <= ReadChunk ==> c == bytes
  {
    bytes[..Min(|bytes|, ReadChunk)]
  }

  /**
    `make_request(res, fd, request, prefix, suffix)` for one query, with
    `prior` the value of `res` before the call. It reports failure unless a
    read delivered bytes, except that a refused raw mode returns early and
    reports success. A timeout stores `<NO REPLY>`; every other failure keeps
    the prior value; delivered bytes are truncated to one buffer and
    stripped of the probe's framing.
   */
  function Exchange(prior: string, p: Probe, a: Answer): (r: Exchanged)
    ensures r.failed <==> !(a.ModeRefused? || (a.Data? && a.bytes != []))
    ensures a.NoReply? ==> r.reply == NoReplyText
    ensures a.ModeRefused? || a.WriteFail? || a.ReadFail? || a == Data([]) ==> r.reply == prior
    ensures a.Data? && a.bytes != [] ==>
              |r.reply| <= ReadChunk && r.reply == Strip(Chunk(a.bytes), ReplyPrefix(p), ReplySuffix(p))
  {
    match a
    case ModeRefused => Exchanged(prior, false)
    case WriteFail => Exchanged(prior, true)
    case NoReply => Exchanged(NoReplyText, true)
    case ReadFail => Exchanged(prior, true)
    case Data(bytes) =>
      if bytes == [] then Exchanged(prior, true)
      else Exchanged(Strip(Chunk(bytes), ReplyPrefix(p), ReplySuffix(p)), false)
  }

  /** A reply that is not stored verbatim keeps the probe's framing out: it never exceeds the delivered chunk. */
  lemma ExchangeShorter(prior: string, p: Probe, bytes: string)
    requires bytes != []
    ensures |Exchange(prior, p, Data(bytes)).reply| <= |Chunk(bytes)|
  {
  }

  /**
    `make_request` as the source runs it: the write/poll/read outcome flags,
    the byte-by-byte copy out of the read buffer, and the framing strip.
   */
  method MakeRequest(prior: string, p: Probe, a: Answer) returns (res: string, failed: bool)
    ensures Exchanged(res, failed) == Exchange(prior, p, a)
  {
    res := prior;
    var wok := false;
    var rok := false;
    if a.ModeRefused? {
      return res, false;
    }
    if !a.WriteFail? {
      wok := true;
      rok := !a.NoReply?;
      if rok {
        var buf := if a.Data? then Chunk(a.bytes) else [];
        var nread := |buf|;
        rok := nread > 0;
        if rok {
          res := [];
          var i := 0;
          while i < nread
            invariant 0 <= i <= nread
            invariant res == buf[..i]
          {
            res := res + [buf[i]];
            i := i + 1;
          }
          assert res == buf;
          assert a.Data? && a.bytes != [];
        }
      } else {
        res := NoReplyText;
      }
    }
    if wok && rok {
      var prefix, suffix := ReplyPrefix(p), ReplySuffix(p);
      ghost var copied := res;
      if |res| > |prefix| + |suffix| && StartsWith(res, prefix) && EndsWith(res, suffix) {
        res := res[|prefix|..|res| - |suffix|];
      }
      assert res == Strip(copied, prefix, suffix);
    }
    failed := !rok;
  }
}
