/** The command framing of `sendCommand` and the ELM327 handshake of
    `initializeElm327`, over an adapter given as a script: the replies it
    will send, one per command, and the log of what was written to it. */
module Channel {
  import opened Wrappers
  import Text

  /** What one read from the adapter yields: the text of the reply, or an
      exception (with its possibly null message). */
  datatype Reply = Answer(text: string) | Broken(message: Option<string>)

  /** The adapter end of the link. */
  datatype Link = Link(replies: seq<Reply>, written: seq<string>)

  const NOT_CONNECTED := "Not connected"

  /** The reset and configuration commands, in the order they are sent:
      reset, echo off, linefeeds off, headers off, automatic protocol. */
  const INIT_COMMANDS := ["ATZ", "ATE0", "ATL0", "ATH0", "ATSP0"]

  /** The handshake as written on the wire. */
  const INIT_LINES := ["ATZ\r", "ATE0\r", "ATL0\r", "ATH0\r", "ATSP0\r"]

  /** A command as it goes on the wire: followed by a carriage return. */
  function Frame(command: string): string
  {
    command + "\r"
  }

  /** The commands as written on the wire, one after another. */
  function FrameAll(commands: seq<string>): seq<string>
  {
    if commands == [] then [] else [Frame(commands[0])] + FrameAll(commands[1..])
  }

  /** One line per command, each the command framed, in the same order. */
  lemma {:induction false} FrameAllLines(commands: seq<string>)
    ensures |FrameAll(commands)| == |commands|
    ensures forall k :: 0 <= k < |commands| ==> FrameAll(commands)[k] == Frame(commands[k])
  {
    if commands != [] {
      FrameAllLines(commands[1..]);
      var lines := FrameAll(commands);
      forall k | 0 <= k < |commands| ensures lines[k] == Frame(commands[k]) {
        if k > 0 {
          assert lines[k] == FrameAll(commands[1..])[k - 1];
        }
      }
    }
  }

  datatype Exchanged = Exchanged(response: Result<string>, link: Link)

  /** One `sendCommand`: without both streams it throws "Not connected" and
      touches nothing; otherwise it writes the framed command, takes the next
      reply and returns it trimmed. A script with no reply left stands for a
      read that fails. */
  function Exchange(link: Link, streamsOpen: bool, command: string): (e: Exchanged)
    ensures e.link.written == if streamsOpen then link.written + [Frame(command)] else link.written
    ensures e.response.Success? ==> streamsOpen && link.replies != [] && link.replies[0].Answer?
  {
    if !streamsOpen then Exchanged(Failure(Some(NOT_CONNECTED)), link)
    else
      var written := link.written + [Frame(command)];
      if link.replies == [] then Exchanged(Failure(None), Link([], written))
      else
        match link.replies[0]
        case Answer(text) => Exchanged(Success(Text.Trim(text)), Link(link.replies[1..], written))
        case Broken(message) => Exchanged(Failure(message), Link(link.replies[1..], written))
  }

  /** `sendCommand` on open streams writes the command followed by CR, takes
      exactly one reply, and returns it trimmed; a broken reply is rethrown
      with its message. Without streams it fails with "Not connected" and
      writes nothing. */
  lemma ExchangeFraming(link: Link, streamsOpen: bool, command: string)
    ensures var e := Exchange(link, streamsOpen, command);
      && (!streamsOpen ==> e == Exchanged(Failure(Some(NOT_CONNECTED)), link))
      && (streamsOpen ==> e.link.written == link.written + [command + "\r"])
      && (streamsOpen ==> e.link.replies == if link.replies == [] then [] else link.replies[1..])
      && (e.response.Success? <==> streamsOpen && link.replies != [] && link.replies[0].Answer?)
      && (e.response.Success? ==> e.response.value == Text.Trim(link.replies[0].text))
      && (e.response.Success? ==> Text.Trim(e.response.value) == e.response.value)
      && (streamsOpen && link.replies != [] && link.replies[0].Broken? ==>
           e.response == Failure(link.replies[0].message))
  {
    if streamsOpen && link.replies != [] && link.replies[0].Answer? {
      Text.TrimIdempotent(link.replies[0].text);
    }
  }

  datatype Ran = Ran(outcome: Result<()>, link: Link)

  /** The commands sent one after another; the first exception ends the run
      and becomes its outcome. */
  function Run(link: Link, streamsOpen: bool, commands: seq<string>): (r: Ran)
    ensures r.outcome.Success? ==> streamsOpen || commands == []
    ensures |r.link.written| <= |link.written| + |commands|
    ensures r.outcome.Success? ==> |r.link.written| == |link.written| + |commands|
    decreases |commands|
  {
    if commands == [] then Ran(Success(()), link)
    else
      var e := Exchange(link, streamsOpen, commands[0]);
      if e.response.Failure? then Ran(Failure(e.response.message), e.link)
      else Run(e.link, streamsOpen, commands[1..])
  }

  /** The handshake `initializeElm327` performs; replies are not checked. */
  function Handshake(link: Link, streamsOpen: bool): (h: Ran)
    ensures h.outcome.Success? ==> streamsOpen
  {
    Run(link, streamsOpen, INIT_COMMANDS)
  }

  /** The first `n` replies of the script are answers. */
  predicate Answers(replies: seq<Reply>, n: nat)
  {
    n == 0 || (replies != [] && replies[0].Answer? && Answers(replies[1..], n - 1))
  }

  /** A command answered by the adapter lets the run go on with the rest. */
  lemma RunStep(link: Link, commands: seq<string>)
    requires commands != [] && link.replies != [] && link.replies[0].Answer?
    ensures Run(link, true, commands) ==
      Run(Link(link.replies[1..], link.written + [Frame(commands[0])]), true, commands[1..])
  {
  }

  /** A missing or broken reply ends the run with its message. */
  lemma RunStop(link: Link, commands: seq<string>)
    requires commands != [] && (link.replies == [] || link.replies[0].Broken?)
    ensures Run(link, true, commands) == Ran(
      Failure(if link.replies == [] then None else link.replies[0].message),
      Link(if link.replies == [] then [] else link.replies[1..], link.written + [Frame(commands[0])]))
  {
  }

  /** A run on open streams succeeds exactly when the script answers every
      command; it then writes every command, framed and in order, and uses one
      reply per command. */
  lemma RunSucceeds(link: Link, commands: seq<string>)
    ensures Run(link, true, commands).outcome.Success? <==> Answers(link.replies, |commands|)
    ensures Answers(link.replies, |commands|) ==>
      && |commands| <= |link.replies|
      && Run(link, true, commands).link == Link(link.replies[|commands|..], link.written + FrameAll(commands))
  {
    if Answers(link.replies, |commands|) {
      RunAnswered(link, commands);
    } else {
      RunUnanswered(link, commands);
    }
  }

  lemma {:induction false} RunAnswered(link: Link, commands: seq<string>)
    requires Answers(link.replies, |commands|)
    ensures |commands| <= |link.replies|
    ensures Run(link, true, commands) ==
      Ran(Success(()), Link(link.replies[|commands|..], link.written + FrameAll(commands)))
    decreases |commands|
  {
    if commands != [] {
      var next := Link(link.replies[1..], link.written + [Frame(commands[0])]);
      RunStep(link, commands);
      RunAnswered(next, commands[1..]);
      AnsweredRest(link, commands);
    }
  }

  /** The bookkeeping of one answered command. */
  lemma AnsweredRest(link: Link, commands: seq<string>)
    requires commands != [] && |commands| <= |link.replies|
    ensures link.replies[1..][|commands| - 1..] == link.replies[|commands|..]
    ensures link.written + [Frame(commands[0])] + FrameAll(commands[1..]) == link.written + FrameAll(commands)
  {
    assert FrameAll(commands) == [Frame(commands[0])] + FrameAll(commands[1..]);
  }

  lemma {:induction false} RunUnanswered(link: Link, commands: seq<string>)
    requires !Answers(link.replies, |commands|)
    ensures Run(link, true, commands).outcome.Failure?
    decreases |commands|
  {
    if link.replies != [] && link.replies[0].Answer? {
      RunStep(link, commands);
      RunUnanswered(Link(link.replies[1..], link.written + [Frame(commands[0])]), commands[1..]);
    } else {
      RunStop(link, commands);
    }
  }

  lemma FramePrefix(written: seq<string>, commands: seq<string>, k: nat)
    requires k < |commands|
    ensures written + [Frame(commands[0])] + FrameAll(commands[1..][..k]) == written + FrameAll(commands[..k + 1])
  {
    var done := commands[..k + 1];
    assert done[0] == commands[0] && done[1..] == commands[1..][..k];
    assert FrameAll(done) == [Frame(commands[0])] + FrameAll(commands[1..][..k]);
  }

  /** A run on open streams that reaches a missing or broken reply at the
      command with index `k` fails with that reply's message, having written
      exactly the first `k + 1` commands. */
  lemma {:induction false} RunFails(link: Link, commands: seq<string>, k: nat)
    requires k < |commands| && k <= |link.replies| && Answers(link.replies, k)
    requires k == |link.replies| || link.replies[k].Broken?
    ensures Run(link, true, commands) == Ran(
      Failure(if k == |link.replies| then None else link.replies[k].message),
      Link(if k == |link.replies| then [] else link.replies[k + 1..],
           link.written + FrameAll(commands[..k + 1])))
    decreases k
  {
    if k == 0 {
      RunStop(link, commands);
      assert commands[..1] == [commands[0]];
    } else {
      var next := Link(link.replies[1..], link.written + [Frame(commands[0])]);
      RunStep(link, commands);
      RunFails(next, commands[1..], k - 1);
      FramePrefix(link.written, commands, k);
      if k < |link.replies| {
        assert link.replies[1..][k..] == link.replies[k + 1..];
      }
    }
  }

  lemma FramedHandshake()
    ensures FrameAll(INIT_COMMANDS) == INIT_LINES
  {
    var lines := FrameAll(INIT_COMMANDS);
    FrameAllLines(INIT_COMMANDS);
    assert lines[0] == "ATZ" + "\r" == "ATZ\r";
    assert lines[1] == "ATE0" + "\r" == "ATE0\r";
    assert lines[2] == "ATL0" + "\r" == "ATL0\r";
    assert lines[3] == "ATH0" + "\r" == "ATH0\r";
    assert lines[4] == "ATSP0" + "\r" == "ATSP0\r";
  }

  /** Without streams the handshake fails at once with "Not connected" and
      writes nothing. */
  lemma HandshakeNotConnected(link: Link)
    ensures Handshake(link, false) == Ran(Failure(Some(NOT_CONNECTED)), link)
  {
  }

  /** The handshake succeeds exactly when the first five replies are answers;
      it then has written ATZ, ATE0, ATL0, ATH0 and ATSP0, each with a
      carriage return, in that order. */
  lemma HandshakeSucceeds(link: Link)
    ensures Handshake(link, true).outcome.Success? <==> Answers(link.replies, 5)
    ensures Answers(link.replies, 5) ==>
      && 5 <= |link.replies|
      && Handshake(link, true).link == Link(link.replies[5..], link.written + INIT_LINES)
  {
    RunSucceeds(link, INIT_COMMANDS);
    FramedHandshake();
  }
}
