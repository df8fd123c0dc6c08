/** Lines of text and how they are cut out of a byte stream. */
module Framing {

  import opened Prelude

  /** The complete lines of s, without their newlines. */
  function Lines(s: string): seq<string> {
    if s == "" then []
    else if Last(s) == '\n' then Lines(Front(s)) + [Tail(Front(s))]
    else Lines(Front(s))
  }

  /** What follows the last newline of s. */
  function Tail(s: string): string {
    if s == "" then ""
    else if Last(s) == '\n' then ""
    else Tail(Front(s)) + [Last(s)]
  }

  /** The lines with their newlines, one after the other. */
  function Joined(lines: seq<string>): string {
    if lines == [] then "" else Joined(Front(lines)) + Last(lines) + "\n"
  }

  predicate OneLine(s: string) {
    '\n' !in s
  }

  function NonEmpty(lines: seq<string>): seq<string> {
    if lines == [] then []
    else NonEmpty(Front(lines)) + if Last(lines) == "" then [] else [Last(lines)]
  }

  lemma SplitLast(s: string)
    requires s != ""
    ensures s == Front(s) + [Last(s)]
    ensures var f := Front(s);
            if Last(s) == '\n' then Lines(s) == Lines(f) + [Tail(f)] && Tail(s) == ""
            else Lines(s) == Lines(f) && Tail(s) == Tail(f) + [Last(s)]
  {
  }

  /** Splitting loses nothing: the lines and the tail make up s again, and none
      of them contains a newline. */
  lemma {:induction false} JoinSplit(s: string)
    ensures Joined(Lines(s)) + Tail(s) == s
    ensures OneLine(Tail(s)) && forall k :: 0 <= k < |Lines(s)| ==> OneLine(Lines(s)[k])
  {
    if s == "" {
      assert Lines(s) == [] && Joined([]) == "" && Tail(s) == "";
    } else {
      SplitLast(s);
      hide Lines, Tail, Joined;
      var f, c := Front(s), Last(s);
      JoinSplit(f);
      if c == '\n' {
        JoinedAppend(Lines(f), Tail(f));
        assert Joined(Lines(s)) + "" == Joined(Lines(s));
      } else {
        Regroup(Joined(Lines(f)), Tail(f), [c]);
      }
    }
  }

  lemma Regroup(a: string, b: string, c: string)
    ensures a + (b + c) == (a + b) + c
  {
  }

  lemma JoinedAppend(lines: seq<string>, line: string)
    ensures Joined(lines + [line]) == Joined(lines) + line + "\n"
  {
    var longer := lines + [line];
    assert Front(longer) == lines && Last(longer) == line;
  }

  lemma {:induction false} SplitTail(s: string, t: string)
    requires OneLine(t)
    ensures Lines(s + t) == Lines(s) && Tail(s + t) == Tail(s) + t
  {
    if t == "" {
      assert s + t == s;
    } else {
      assert Front(s + t) == s + Front(t) && Last(s + t) == Last(t);
      assert Last(t) in t;
      assert t == Front(t) + [Last(t)];
      SplitTail(s, Front(t));
    }
  }

  /** Splitting is the only way to undo joining. */
  lemma {:induction false} SplitJoin(lines: seq<string>, tail: string)
    requires OneLine(tail) && forall k :: 0 <= k < |lines| ==> OneLine(lines[k])
    ensures Lines(Joined(lines) + tail) == lines && Tail(Joined(lines) + tail) == tail
  {
    var s := Joined(lines);
    if lines == [] {
      assert s == "";
    } else {
      var front, l := Front(lines), Last(lines);
      assert OneLine(lines[|lines| - 1]);
      SplitJoin(front, "");
      var f := Joined(front);
      assert f + "" == f;
      SplitTail(f, l);
      assert Front(s) == f + l && Last(s) == '\n';
      assert "" + l == l;
      assert lines == front + [l];
    }
    SplitTail(s, tail);
    assert "" + tail == tail;
  }

  lemma {:induction false} LinesPrefix(s: string, t: string)
    ensures Lines(s) <= Lines(s + t)
  {
    if t == "" {
      assert s + t == s;
    } else {
      assert Front(s + t) == s + Front(t) && Last(s + t) == Last(t);
      LinesPrefix(s, Front(t));
    }
  }

  lemma {:induction false} NonEmptyConcat(a: seq<string>, b: seq<string>)
    ensures NonEmpty(a + b) == NonEmpty(a) + NonEmpty(b)
  {
    if b == [] {
      assert a + b == a;
    } else {
      assert Front(a + b) == a + Front(b) && Last(a + b) == Last(b);
      NonEmptyConcat(a, Front(b));
    }
  }

  lemma NonEmptyLast(lines: seq<string>)
    requires lines != []
    ensures lines == Front(lines) + [Last(lines)]
    ensures Last(lines) != "" ==> NonEmpty(lines) == NonEmpty(Front(lines)) + [Last(lines)]
  {
  }

  lemma {:induction false} NonEmptyAll(lines: seq<string>)
    requires forall k :: 0 <= k < |lines| ==> lines[k] != ""
    ensures NonEmpty(lines) == lines
  {
    if lines != [] {
      NonEmptyLast(lines);
      hide NonEmpty;
      var front := lines[..|lines| - 1];
      NonEmptyAll(front);
    }
  }

  /** A reader that has a prefix of the joined messages sees a prefix of the
      messages, and with all of it all messages. */
  lemma PrefixSees(messages: seq<string>, bytes: string)
    requires forall k :: 0 <= k < |messages| ==> OneLine(messages[k]) && messages[k] != ""
    requires bytes <= Joined(messages)
    ensures NonEmpty(Lines(bytes)) == Lines(bytes) <= messages
    ensures bytes == Joined(messages) ==> Lines(bytes) == messages && Tail(bytes) == ""
  {
    var all := Joined(messages);
    SplitJoin(messages, "");
    assert all + "" == all;
    assert bytes + all[|bytes|..] == all;
    LinesPrefix(bytes, all[|bytes|..]);
    NonEmptyAll(Lines(bytes));
  }
}

/** IOProtoHandler: line framing over a non-blocking socket. */
module Protocol {
  import opened Framing
  import opened Prelude

  type Chunk = s: string | 1 <= |s| <= 4096 witness "x"

  datatype RecvOutcome = Data(bytes: Chunk) | Closed | WouldBlock | RecvInterrupted | RecvError

  datatype SendOutcome = Accepted(limit: nat) | SendWouldBlock | SendInterrupted | SendError

  datatype SelectOutcome = Ready | SelectInterrupted | SelectError

  datatype IOStatus = OK | NOTYET | ERR

  /** The bytes of the outcomes to come. */
  function Bytes(outcomes: seq<RecvOutcome>): string {
    if outcomes == [] then ""
    else BytesOf(outcomes[0]) + Bytes(outcomes[1..])
  }

  function BytesOf(o: RecvOutcome): string {
    if o.Data? then o.bytes else ""
  }

  lemma {:induction false} BytesAppend(outcomes: seq<RecvOutcome>, o: RecvOutcome)
    ensures Bytes(outcomes + [o]) == Bytes(outcomes) + BytesOf(o)
  {
    if outcomes == [] {
      assert [o][1..] == [];
    } else {
      assert (outcomes + [o])[1..] == outcomes[1..] + [o];
      BytesAppend(outcomes[1..], o);
    }
  }

  class IOProtoHandler {
    var isOpen: bool                 // sockfd != -1
    var inbuf: string
    var newlines: seq<string>
    var outbuf: string
    // What recv, send and select are going to return. A script that has run out
    // would block; for select it fails.
    var incoming: seq<RecvOutcome>
    var outgoing: seq<SendOutcome>
    var selects: seq<SelectOutcome>
    // History: what recv, send and select returned, the bytes received and sent, the
    // lines taken from the queue, and the encodings written, without their final
    // newline.
    ghost var recvLog: seq<RecvOutcome>
    ghost var sendLog: seq<SendOutcome>
    ghost var selectLog: seq<SelectOutcome>
    ghost var received: string
    ghost var taken: seq<string>
    ghost var sent: string
    ghost var written: seq<string>

    ghost predicate Valid()
      reads this
    {
      // what was taken and what is queued are the lines received
      && Lines(received) == taken + newlines
      && inbuf == Tail(received)
      && sent + outbuf == Joined(written)
    }

    constructor (incoming: seq<RecvOutcome>, outgoing: seq<SendOutcome>, selects: seq<SelectOutcome>)
      ensures Valid() && isOpen && received == sent == "" && taken == written == []
      ensures this.incoming == incoming && this.outgoing == outgoing && this.selects == selects
      ensures recvLog == [] && sendLog == [] && selectLog == []
    {
      isOpen, inbuf, newlines, outbuf := true, "", [], "";
      this.incoming, this.outgoing, this.selects := incoming, outgoing, selects;
      recvLog, sendLog, selectLog := [], [], [];
      received, taken, sent, written := "", [], "", [];
    }

    /** recv. The end of the stream stays the end of the stream. */
    method Recv() returns (o: RecvOutcome)
      modifies this`incoming, this`recvLog
      ensures o == if !isOpen then RecvError else if old(incoming) == [] then WouldBlock else old(incoming)[0]
      ensures incoming == if !isOpen || old(incoming) == [] || o == Closed then old(incoming) else old(incoming)[1..]
      ensures BytesOf(o) + Bytes(incoming) == Bytes(old(incoming))
      ensures |incoming| <= |old(incoming)| && (o.Data? || o == RecvInterrupted ==> |incoming| < |old(incoming)|)
      ensures recvLog == old(recvLog) + [o] && (old(Valid()) ==> Valid())
    {
      o := RecvError;
      if isOpen {
        if incoming == [] {
          o := WouldBlock;
        } else {
          o := incoming[0];
          if o != Closed {
            incoming := incoming[1..];
          }
        }
      }
      recvLog := recvLog + [o];
    }

    method TakeByte(c: char)
      requires Valid()
      modifies this`inbuf, this`newlines, this`received
      ensures Valid() && received == old(received) + [c] && old(newlines) <= newlines
    {
      assert Front(received + [c]) == received && Last(received + [c]) == c;
      if c != '\n' {
        inbuf := inbuf + [c];
      } else {
        newlines := newlines + [inbuf];
        inbuf := "";
      }
      received := received + [c];
    }

    method TakeChunk(buf: Chunk)
      requires Valid()
      modifies this`inbuf, this`newlines, this`received
      ensures Valid() && received == old(received) + buf && old(newlines) <= newlines
    {
      hide Valid;
      for i := 0 to |buf|
        invariant Valid() && received == old(received) + buf[..i] && old(newlines) <= newlines
      {
        assert buf[..i + 1] == buf[..i] + [buf[i]];
        TakeByte(buf[i]);
      }
      assert buf[..|buf|] == buf;
    }

    /** One turn of the loop of readSocket: takes the data and receives again. */
    method ReadOn(buf: Chunk) returns (rv: RecvOutcome)
      requires Valid()
      modifies this`inbuf, this`newlines, this`incoming, this`received, this`recvLog
      ensures Valid() && received == old(received) + buf && old(newlines) <= newlines
      ensures recvLog == old(recvLog) + [rv] && BytesOf(rv) + Bytes(incoming) == Bytes(old(incoming))
      ensures |incoming| <= |old(incoming)| && (rv.Data? || rv == RecvInterrupted ==> |incoming| < |old(incoming)|)
    {
      hide Lines, Tail, Joined, Bytes;
      TakeChunk(buf);
      rv := Recv();
    }

    /** Reads until recv returns no data. */
    method ReadSocket() returns (rv: RecvOutcome)
      requires Valid()
      modifies this`inbuf, this`newlines, this`incoming, this`received, this`recvLog
      ensures Valid() && !rv.Data? && recvLog != [] && Last(recvLog) == rv
      ensures received + Bytes(incoming) == old(received) + Bytes(old(incoming))
      ensures Received(old(recvLog), old(received), recvLog, received)
      ensures |incoming| <= |old(incoming)| && old(newlines) <= newlines
      ensures |incoming| == |old(incoming)| ==> newlines == old(newlines) && rv != RecvInterrupted
      ensures forall i :: |old(recvLog)| <= i < |recvLog| - 1 ==> recvLog[i].Data?
    {
      hide Lines, Tail, Joined, Bytes, Received, Valid;
      ReceivedNothing(recvLog, received);
      rv := Recv();
      ReceivedNext(old(recvLog), old(received), old(recvLog), old(received), rv);
      while rv.Data?
        invariant Valid() && recvLog != [] && Last(recvLog) == rv
        invariant received + (BytesOf(rv) + Bytes(incoming)) == old(received) + Bytes(old(incoming))
        invariant Received(old(recvLog), old(received), recvLog, received + BytesOf(rv))
        invariant |incoming| <= |old(incoming)| && old(newlines) <= newlines
        invariant rv.Data? || rv == RecvInterrupted ==> |incoming| < |old(incoming)|
        invariant |incoming| == |old(incoming)| ==> newlines == old(newlines)
        invariant old(recvLog) < recvLog && forall i :: |old(recvLog)| <= i < |recvLog| - 1 ==> recvLog[i].Data?
        decreases |incoming|, rv.Data?
      {
        ghost var before := recvLog;
        rv := ReadOn(rv.bytes);
        ReceivedNext(old(recvLog), old(received), before, received, rv);
      }
      assert received + BytesOf(rv) == received;
    }

    /** The next non-empty line, if one has been received completely. Without
        one, the last outcome of recv decides between NOTYET and ERR. */
    method GetRawMessage() returns (status: IOStatus, msg: string)
      requires Valid()
      modifies this`inbuf, this`newlines, this`incoming, this`received, this`recvLog, this`taken, this`isOpen
      ensures Valid()
      ensures received + Bytes(incoming) == old(received) + Bytes(old(incoming))
      ensures Received(old(recvLog), old(received), recvLog, received)
      ensures status == OK ==> msg != "" && NonEmpty(taken) == NonEmpty(old(taken)) + [msg] && isOpen == old(isOpen)
      ensures status != OK ==> msg == "" && newlines == [] && NonEmpty(taken) == NonEmpty(old(taken)) && recvLog != []
      ensures status == NOTYET ==> Last(recvLog) == WouldBlock && isOpen == old(isOpen)
      ensures status == ERR ==> Last(recvLog) in {Closed, RecvError} && isOpen == (old(isOpen) && Last(recvLog) != Closed)
      ensures old(newlines) != [] && old(newlines)[0] != "" ==> status == OK && recvLog == old(recvLog)
      decreases |incoming|, |newlines|
    {
      hide Lines, Tail, Joined, Bytes, NonEmpty, Received;
      ghost var total := |newlines|;
      ReceivedNothing(recvLog, received);
      if newlines != [] {
        msg := newlines[0];
        NonEmptyConcat(taken, [msg]);
        OneMessage(msg);
        taken, newlines := taken + [msg], newlines[1..];
        if msg != "" {
          return OK, msg;
        }
      }
      while true
        invariant Valid() && isOpen == old(isOpen)
        invariant received + Bytes(incoming) == old(received) + Bytes(old(incoming))
        invariant Received(old(recvLog), old(received), recvLog, received)
        invariant NonEmpty(taken) == NonEmpty(old(taken))
        invariant |incoming| <= |old(incoming)| && (|incoming| == |old(incoming)| ==> |newlines| < total || newlines == [])
        decreases |incoming|
      {
        ghost var log1, received1 := recvLog, received;
        var rv := ReadSocket();
        ReceivedTrans(old(recvLog), old(received), log1, received1, recvLog, received);
        if newlines != [] {
          ghost var log2, received2 := recvLog, received;
          status, msg := GetRawMessage();
          ReceivedTrans(old(recvLog), old(received), log2, received2, recvLog, received);
          return;
        }
        match rv {
          case Closed =>
            isOpen := false;
            return ERR, "";
          case WouldBlock =>
            return NOTYET, "";
          case RecvInterrupted =>
            continue;
          case _ =>
            return ERR, "";
        }
      }
    }

    /** Queues an encoding, with a newline if it has none at the end. */
    method WriteResponse(encoded: string)
      requires Valid() && encoded != ""
      modifies this`outbuf, this`written
      ensures Valid()
      ensures written == old(written) + [if Last(encoded) == '\n' then Front(encoded) else encoded]
    {
      ghost var body := if Last(encoded) == '\n' then Front(encoded) else encoded;
      var text := encoded;
      if text[|text| - 1] != '\n' {
        text := text + "\n";
      }
      AppendLine(written, body, text, sent, outbuf);
      hide Lines, Tail, Joined;
      outbuf := outbuf + text;
      written := written + [body];
    }

    /** send. */
    method Send() returns (o: SendOutcome)
      modifies this`outgoing, this`sendLog
      ensures o == if old(outgoing) == [] then SendWouldBlock else old(outgoing)[0]
      ensures outgoing == if old(outgoing) == [] then [] else old(outgoing)[1..]
      ensures sendLog == old(sendLog) + [o]
    {
      o := SendWouldBlock;
      if outgoing != [] {
        o := outgoing[0];
        outgoing := outgoing[1..];
      }
      sendLog := sendLog + [o];
    }

    /** The loop of flushBuffer: sends outbuf until all is taken, or the socket
        would block or fails. */
    method SendAll() returns (done: nat, fbret: int)
      modifies this`outgoing, this`sent, this`sendLog
      ensures done <= |outbuf| && fbret in {0, -1}
      ensures sent == old(sent) + outbuf[..done]
      ensures Sends(old(sendLog), sendLog, |outbuf|, done)
      ensures fbret == 0 <==> done == |outbuf| || Last(sendLog) == SendWouldBlock
    {
      hide Taken;
      var remaining := |outbuf|;
      done, fbret := 0, 0;
      SendingNothing(sendLog, |outbuf|);
      while remaining > 0
        invariant remaining >= 0 && done + remaining == |outbuf| && fbret == 0
        invariant sent == old(sent) + outbuf[..done]
        invariant Sending(old(sendLog), sendLog, |outbuf|, done)
        decreases |outgoing|, remaining
      {
        ghost var before := sendLog;
        var rv := Send();
        SendingNext(old(sendLog), before, |outbuf|, done, rv);
        if rv.Accepted? && rv.limit > 0 {
          var n := if rv.limit < remaining then rv.limit else remaining;
          sent := sent + outbuf[done..done + n];
          assert outbuf[..done] + outbuf[done..done + n] == outbuf[..done + n];
          done, remaining := done + n, remaining - n;
        } else if rv == SendInterrupted {
          continue;
        } else if rv == SendWouldBlock {
          fbret := 0;
          return;
        } else {
          fbret := -1;
          return;
        }
      }
    }

    /** Sends what the socket takes; 0 on success, also when it would block, and
        -1 when send takes nothing or fails. */
    method FlushBuffer() returns (fbret: int)
      requires Valid()
      modifies this`outbuf, this`outgoing, this`sent, this`sendLog
      ensures Valid() && fbret in {0, -1}
      ensures Sends(old(sendLog), sendLog, |old(outbuf)|, |old(outbuf)| - |outbuf|) && |outbuf| <= |old(outbuf)|
      ensures Sent(old(sendLog), old(sent), old(outbuf), sendLog, sent, outbuf)
      ensures fbret == 0 <==> outbuf == "" || Last(sendLog) == SendWouldBlock
    {
      hide Lines, Tail, Joined, Taken;
      var done;
      done, fbret := SendAll();
      Resplit(old(sent), outbuf, done);
      outbuf := outbuf[done..];
    }

    /** select. */
    method Select() returns (o: SelectOutcome)
      modifies this`selects, this`selectLog
      ensures o == if old(selects) == [] then SelectError else old(selects)[0]
      ensures selects == if old(selects) == [] then [] else old(selects)[1..]
      ensures selectLog == old(selectLog) + [o]
    {
      o := SelectError;
      if selects != [] {
        o := selects[0];
        selects := selects[1..];
      }
      selectLog := selectLog + [o];
    }

    /** Flushes until nothing is left or the socket fails. */
    method FlushBufferBlock() returns (r: int)
      requires Valid()
      modifies this`outbuf, this`outgoing, this`selects, this`sent, this`sendLog, this`selectLog
      ensures Valid() && r in {0, -1}
      ensures Sent(old(sendLog), old(sent), old(outbuf), sendLog, sent, outbuf)
      ensures r == 0 <==> outbuf == ""
      ensures r == 0 ==> sent == Joined(written)
      ensures r == -1 ==> || (selectLog != [] && Last(selectLog) == SelectError)
                          || (sendLog != [] && Failing(Last(sendLog)))
      ensures Turns(old(selectLog), selectLog, old(sendLog), sendLog, old(outbuf) != "" && outbuf == "")
    {
      hide Lines, Tail, Joined, Taken, Sent, Sends, Smooth, Turns;
      SentNothing(sendLog, sent, outbuf);
      NoTurns(selectLog, sendLog);
      while outbuf != ""
        invariant Valid() && Sent(old(sendLog), old(sent), old(outbuf), sendLog, sent, outbuf)
        invariant Smooth(old(selectLog), selectLog, old(sendLog), sendLog, old(outbuf) != "" && outbuf == "")
        invariant old(outbuf) == "" ==> outbuf == ""
        decreases |selects|
      {
        ghost var selects0 := selectLog;
        var selrv := Select();
        if selrv != Ready {
          SelectTurn(old(selectLog), selects0, old(sendLog), sendLog, selrv);
        }
        if selrv == SelectError {
          return -1;
        }
        if selrv == SelectInterrupted {
          continue;
        }
        ghost var log1, sent1, outbuf1 := sendLog, sent, outbuf;
        var f := FlushBuffer();
        SentTrans(old(sendLog), old(sent), old(outbuf), log1, sent1, outbuf1, sendLog, sent, outbuf);
        FlushTurn(old(selectLog), selects0, old(sendLog), log1, sendLog, |outbuf1|, |outbuf1| - |outbuf|);
        if f == -1 {
          return -1;
        }
      }
      SmoothTurns(old(selectLog), selectLog, old(sendLog), sendLog, old(outbuf) != "");
      assert sent + outbuf == sent;
      return 0;
    }
  }

  /* ---- what send took ---- */

  /** How many of `offered` bytes these sends took: each at most its limit, and
      only those that accept any. */
  function Taken(log: seq<SendOutcome>, offered: nat): (n: nat)
    ensures n <= offered
  {
    if log == [] then 0
    else
      var before := Taken(Front(log), offered);
      var rest := offered - before;
      before + match Last(log)
               case Accepted(limit) => if limit < rest then limit else rest
               case _ => 0
  }

  /** A send after which flushBuffer sends again. */
  predicate GoesOn(o: SendOutcome) {
    o == SendInterrupted || (o.Accepted? && o.limit > 0)
  }

  /** There were bytes left to offer before each of these sends. */
  ghost predicate Offering(sends: seq<SendOutcome>, offered: nat) {
    forall i :: 0 <= i < |sends| ==> Taken(sends[..i], offered) < offered
  }

  /** Sends since log0 that have taken `done` bytes, and after each reason to send
      again. */
  ghost predicate Sending(log0: seq<SendOutcome>, log: seq<SendOutcome>, offered: nat, done: nat) {
    && log0 <= log
    && var sends := log[|log0|..];
       && done == Taken(sends, offered) && Offering(sends, offered)
       && forall i :: 0 <= i < |sends| ==> GoesOn(sends[i])
  }

  /** Such sends, to the end: all bytes are taken, or there is no reason to send again. */
  ghost predicate Sends(log0: seq<SendOutcome>, log: seq<SendOutcome>, offered: nat, done: int) {
    && log0 <= log
    && var sends := log[|log0|..];
       && done == Taken(sends, offered) && Offering(sends, offered)
       && (forall i :: 0 <= i < |sends| - 1 ==> GoesOn(sends[i]))
       && (done < offered ==> sends != [] && !GoesOn(Last(sends)))
  }

  lemma SendingNothing(log: seq<SendOutcome>, offered: nat)
    ensures Sending(log, log, offered, 0)
  {
    assert log[|log|..] == [];
  }

  lemma SendingNext(log0: seq<SendOutcome>, log: seq<SendOutcome>, offered: nat, done: nat, o: SendOutcome)
    requires Sending(log0, log, offered, done) && done < offered
    ensures var n := if !o.Accepted? then 0 else if o.limit < offered - done then o.limit else offered - done;
            && (GoesOn(o) ==> Sending(log0, log + [o], offered, done + n))
            && (!GoesOn(o) ==> Sends(log0, log + [o], offered, done) && Last(log + [o]) == o)
            && (GoesOn(o) && done + n == offered ==> Sends(log0, log + [o], offered, offered))
  {
    var sends := log[|log0|..];
    assert (log + [o])[|log0|..] == sends + [o];
    TakenNext(sends, o, offered);
    OfferingNext(sends, o, offered);
    hide Taken, Offering;
  }

  lemma OfferingNext(sends: seq<SendOutcome>, o: SendOutcome, offered: nat)
    requires Offering(sends, offered) && Taken(sends, offered) < offered
    ensures Offering(sends + [o], offered)
  {
    hide Taken;
    forall i | 0 <= i < |sends + [o]|
      ensures Taken((sends + [o])[..i], offered) < offered
    {
      if i < |sends| {
        assert (sends + [o])[..i] == sends[..i];
      } else {
        assert (sends + [o])[..i] == sends;
      }
    }
  }

  lemma TakenNext(log: seq<SendOutcome>, o: SendOutcome, offered: nat)
    ensures var done := Taken(log, offered);
            Taken(log + [o], offered) ==
              done + if !o.Accepted? then 0 else if o.limit < offered - done then o.limit else offered - done
  {
    assert Front(log + [o]) == log && Last(log + [o]) == o;
  }

  lemma {:induction false} TakenConcat(a: seq<SendOutcome>, b: seq<SendOutcome>, offered: nat)
    ensures Taken(a + b, offered) == Taken(a, offered) + Taken(b, offered - Taken(a, offered))
  {
    if b == [] {
      assert a + b == a;
    } else {
      var front, o := Front(b), Last(b);
      assert b == front + [o] && a + b == (a + front) + [o];
      TakenConcat(a, front, offered);
      TakenNext(a + front, o, offered);
      TakenNext(front, o, offered - Taken(a, offered));
    }
  }

  /** Since then the socket took the first bytes of outbuf0, as many as its sends
      accepted, and the others are still in outbuf. */
  ghost predicate Sent(log0: seq<SendOutcome>, sent0: string, outbuf0: string,
                       log: seq<SendOutcome>, sent: string, outbuf: string)
  {
    && log0 <= log
    && var n := Taken(log[|log0|..], |outbuf0|);
       sent == sent0 + outbuf0[..n] && outbuf == outbuf0[n..]
  }

  lemma SentNothing(log: seq<SendOutcome>, sent: string, outbuf: string)
    ensures Sent(log, sent, outbuf, log, sent, outbuf)
  {
    assert log[|log|..] == [];
    assert outbuf[..0] == "" && outbuf[0..] == outbuf;
    assert sent + "" == sent;
  }

  lemma SentTrans(log0: seq<SendOutcome>, sent0: string, outbuf0: string,
                  log1: seq<SendOutcome>, sent1: string, outbuf1: string,
                  log2: seq<SendOutcome>, sent2: string, outbuf2: string)
    requires Sent(log0, sent0, outbuf0, log1, sent1, outbuf1) && Sent(log1, sent1, outbuf1, log2, sent2, outbuf2)
    ensures Sent(log0, sent0, outbuf0, log2, sent2, outbuf2)
  {
    var a, b := log1[|log0|..], log2[|log1|..];
    SuffixConcat(log0, log1, log2);
    TakenConcat(a, b, |outbuf0|);
    hide Taken;
    var m, n := Taken(a, |outbuf0|), Taken(b, |outbuf1|);
    TakeTwice(sent0, outbuf0, m, n);
  }

  lemma TakeTwice(sent: string, outbuf: string, m: nat, n: nat)
    requires m + n <= |outbuf|
    ensures (sent + outbuf[..m]) + outbuf[m..][..n] == sent + outbuf[..m + n]
    ensures outbuf[m..][n..] == outbuf[m + n..]
  {
    assert outbuf[..m] + outbuf[m..][..n] == outbuf[..m + n];
  }

  /* ---- select and send in turn ---- */

  /** A send that makes flushBuffer fail. */
  predicate Failing(o: SendOutcome) {
    o == Accepted(0) || o == SendError
  }

  function Readies(log: seq<SelectOutcome>): nat {
    if log == [] then 0 else Readies(Front(log)) + if Last(log) == Ready then 1 else 0
  }

  /** The sends that end a flush before everything is taken. */
  function Halts(log: seq<SendOutcome>): nat {
    if log == [] then 0 else Halts(Front(log)) + if GoesOn(Last(log)) then 0 else 1
  }

  /** Every time select is ready there is one flush, and otherwise none: the flushes
      that end early, and the one that takes everything if there is one. */
  ghost predicate InTurn(selects: seq<SelectOutcome>, sends: seq<SendOutcome>, finished: bool) {
    Readies(selects) == Halts(sends) + if finished then 1 else 0
  }

  /** Nothing has failed so far. */
  ghost predicate Smooth(selects0: seq<SelectOutcome>, selects: seq<SelectOutcome>,
                         sends0: seq<SendOutcome>, sends: seq<SendOutcome>, finished: bool)
  {
    && selects0 <= selects && sends0 <= sends
    && InTurn(selects[|selects0|..], sends[|sends0|..], finished)
    && (forall i :: |selects0| <= i < |selects| ==> selects[i] != SelectError)
    && (forall i :: |sends0| <= i < |sends| ==> !Failing(sends[i]))
  }

  /** What was called since then, up to the first failure and not past it. */
  ghost predicate Turns(selects0: seq<SelectOutcome>, selects: seq<SelectOutcome>,
                        sends0: seq<SendOutcome>, sends: seq<SendOutcome>, finished: bool)
  {
    && selects0 <= selects && sends0 <= sends
    && InTurn(selects[|selects0|..], sends[|sends0|..], finished)
    && (forall i :: |selects0| <= i < |selects| - 1 ==> selects[i] != SelectError)
    && (forall i :: |sends0| <= i < |sends| - 1 ==> !Failing(sends[i]))
  }

  lemma NoTurns(selects: seq<SelectOutcome>, sends: seq<SendOutcome>)
    ensures Smooth(selects, selects, sends, sends, false)
  {
    assert selects[|selects|..] == [] && sends[|sends|..] == [];
  }

  lemma SmoothTurns(selects0: seq<SelectOutcome>, selects: seq<SelectOutcome>,
                    sends0: seq<SendOutcome>, sends: seq<SendOutcome>, finished: bool)
    requires Smooth(selects0, selects, sends0, sends, finished)
    ensures Turns(selects0, selects, sends0, sends, finished)
  {
  }

  lemma SelectTurn(selects0: seq<SelectOutcome>, selects: seq<SelectOutcome>,
                   sends0: seq<SendOutcome>, sends: seq<SendOutcome>, o: SelectOutcome)
    requires Smooth(selects0, selects, sends0, sends, false) && o != Ready
    ensures Turns(selects0, selects + [o], sends0, sends, false)
    ensures o != SelectError ==> Smooth(selects0, selects + [o], sends0, sends, false)
  {
    var since := selects[|selects0|..];
    assert (selects + [o])[|selects0|..] == since + [o];
    assert Front(since + [o]) == since;
  }

  lemma {:induction false} HaltsConcat(a: seq<SendOutcome>, b: seq<SendOutcome>)
    ensures Halts(a + b) == Halts(a) + Halts(b)
  {
    if b == [] {
      assert a + b == a;
    } else {
      assert a + b == (a + Front(b)) + [Last(b)];
      assert Front(a + b) == a + Front(b);
      HaltsConcat(a, Front(b));
    }
  }

  lemma {:induction false} NoHalts(sends: seq<SendOutcome>)
    requires forall i :: 0 <= i < |sends| ==> GoesOn(sends[i])
    ensures Halts(sends) == 0
  {
    if sends != [] {
      NoHalts(Front(sends));
    }
  }

  /** A flush of something goes on until its last send, and goes on there as well
      exactly if everything is taken. */
  lemma OneFlush(log0: seq<SendOutcome>, log: seq<SendOutcome>, offered: nat, done: nat)
    requires Sends(log0, log, offered, done) && offered > 0
    ensures log0 < log && forall i :: |log0| <= i < |log| - 1 ==> GoesOn(log[i])
    ensures GoesOn(Last(log)) <==> done == offered
    ensures Halts(log[|log0|..]) == if done == offered then 0 else 1
  {
    var sends := log[|log0|..];
    assert sends != [];
    var front, n := Front(sends), |sends| - 1;
    assert sends == front + [Last(sends)] && sends[..n] == front && Last(sends) == Last(log);
    TakenNext(front, Last(sends), offered);
    NoHalts(front);
    assert forall i :: |log0| <= i < |log| - 1 ==> log[i] == sends[i - |log0|];
  }

  lemma FlushTurn(selects0: seq<SelectOutcome>, selects: seq<SelectOutcome>,
                  sends0: seq<SendOutcome>, sends1: seq<SendOutcome>, sends: seq<SendOutcome>, offered: nat, done: nat)
    requires Smooth(selects0, selects, sends0, sends1, false)
    requires Sends(sends1, sends, offered, done) && 0 < offered && done <= offered
    ensures sends1 < sends && (GoesOn(Last(sends)) <==> done == offered)
    ensures Turns(selects0, selects + [Ready], sends0, sends, done == offered)
    ensures !Failing(Last(sends)) ==> Smooth(selects0, selects + [Ready], sends0, sends, done == offered)
  {
    var since := selects[|selects0|..];
    assert (selects + [Ready])[|selects0|..] == since + [Ready];
    assert Front(since + [Ready]) == since;
    SuffixConcat(sends0, sends1, sends);
    HaltsConcat(sends1[|sends0|..], sends[|sends1|..]);
    OneFlush(sends1, sends, offered, done);
  }

  /* ---- what recv brought ---- */

  /** The outcomes logged since log0 brought exactly the bytes received since received0. */
  ghost predicate Received(log0: seq<RecvOutcome>, received0: string, log: seq<RecvOutcome>, received: string) {
    log0 <= log && received == received0 + Bytes(log[|log0|..])
  }

  lemma Resplit(sent: string, outbuf: string, done: nat)
    requires done <= |outbuf|
    ensures (sent + outbuf[..done]) + outbuf[done..] == sent + outbuf
  {
    assert outbuf[..done] + outbuf[done..] == outbuf;
  }

  lemma ReceivedNothing(log: seq<RecvOutcome>, received: string)
    ensures Received(log, received, log, received)
  {
  }

  lemma ReceivedNext(log0: seq<RecvOutcome>, received0: string, log: seq<RecvOutcome>, received: string, o: RecvOutcome)
    requires Received(log0, received0, log, received)
    ensures Received(log0, received0, log + [o], received + BytesOf(o))
  {
    hide Bytes, BytesOf;
    var since := log[|log0|..];
    assert (log + [o])[|log0|..] == since + [o];
    BytesAppend(since, o);
    assert received0 + (Bytes(since) + BytesOf(o)) == (received0 + Bytes(since)) + BytesOf(o);
  }

  lemma {:induction false} BytesConcat(a: seq<RecvOutcome>, b: seq<RecvOutcome>)
    ensures Bytes(a + b) == Bytes(a) + Bytes(b)
  {
    if a == [] {
      assert a + b == b;
    } else {
      assert (a + b)[1..] == a[1..] + b;
      BytesConcat(a[1..], b);
    }
  }

  lemma SuffixConcat<T>(a: seq<T>, b: seq<T>, c: seq<T>)
    requires a <= b <= c
    ensures a <= c && c[|a|..] == b[|a|..] + c[|b|..]
  {
    assert c == b + c[|b|..];
  }

  lemma ReceivedTrans(log0: seq<RecvOutcome>, received0: string, log1: seq<RecvOutcome>, received1: string,
                      log2: seq<RecvOutcome>, received2: string)
    requires Received(log0, received0, log1, received1) && Received(log1, received1, log2, received2)
    ensures Received(log0, received0, log2, received2)
  {
    hide Bytes;
    var a, b := log1[|log0|..], log2[|log1|..];
    SuffixConcat(log0, log1, log2);
    BytesConcat(a, b);
    assert (received0 + Bytes(a)) + Bytes(b) == received0 + (Bytes(a) + Bytes(b));
  }

  lemma AppendLine(written: seq<string>, body: string, text: string, sent: string, outbuf: string)
    requires sent + outbuf == Joined(written) && text == body + "\n"
    ensures sent + (outbuf + text) == Joined(written + [body])
  {
    assert Front(written + [body]) == written && Last(written + [body]) == body;
    assert sent + (outbuf + text) == (sent + outbuf) + body + "\n";
  }

  lemma OneMessage(msg: string)
    ensures NonEmpty([msg]) == if msg == "" then [] else [msg]
  {
    assert Front([msg]) == [] && Last([msg]) == msg;
  }

  /* ---- the wire ---- */

  /** Messages delivered so far: the non-empty lines taken from the queue. */
  ghost function Delivered(r: IOProtoHandler): seq<string>
    reads r
  {
    NonEmpty(r.taken)
  }

  /** However the bytes were cut into chunks, readers of the same bytes have the
      same messages delivered or queued, and the same incomplete line. */
  lemma ChunkIndependent(a: IOProtoHandler, b: IOProtoHandler)
    requires a.Valid() && b.Valid() && a.received == b.received
    ensures Delivered(a) + NonEmpty(a.newlines) == Delivered(b) + NonEmpty(b.newlines) == NonEmpty(Lines(a.received))
    ensures a.inbuf == b.inbuf
  {
    NonEmptyConcat(a.taken, a.newlines);
    NonEmptyConcat(b.taken, b.newlines);
  }

  /** What a reader of a writer's bytes has delivered is a prefix of the messages
      written; it is all of them once everything was sent and received and no
      line is queued any more. */
  lemma WireRoundTrip(w: IOProtoHandler, r: IOProtoHandler)
    requires w.Valid() && r.Valid() && r.received <= w.sent
    requires forall k :: 0 <= k < |w.written| ==> OneLine(w.written[k]) && w.written[k] != ""
    ensures Delivered(r) <= w.written
    ensures w.outbuf == "" && r.received == w.sent && r.newlines == [] ==> Delivered(r) == w.written
  {
    hide Lines, Tail, Joined, NonEmpty;
    assert r.received <= w.sent + w.outbuf;
    assert w.outbuf == "" ==> w.sent + w.outbuf == w.sent;
    PrefixSees(w.written, r.received);
    NonEmptyConcat(r.taken, r.newlines);
    assert r.newlines == [] ==> r.taken + r.newlines == r.taken;
  }
}
