/** The telnet state tracker of src/libtelnet.c, updated in place, proved against TelnetSpec. */
module Telnet {
  import opened Bytes
  import opened Negotiation
  import opened TelnetSpec
  import opened TelnetEncoding

  lemma {:induction false} UpdateFound(q: seq<Entry>, i: nat, opt: byte, x: Sides)
    requires i < |q| && q[i].telopt == opt && forall j :: 0 <= j < i ==> q[j].telopt != opt
    ensures Update(q, opt, x) == q[i := Entry(opt, x)] && Tracked(q, opt)
  {
    assert q[i] in q;
    if i > 0 {
      UpdateFound(q[1..], i - 1, opt, x);
    }
  }

  lemma {:induction false} UpdateMissing(q: seq<Entry>, opt: byte, x: Sides)
    requires forall j :: 0 <= j < |q| ==> q[j].telopt != opt
    ensures Update(q, opt, x) == q + [Entry(opt, x)] && !Tracked(q, opt)
  {
    if q != [] {
      UpdateMissing(q[1..], opt, x);
    }
  }

  class Tracker {
    const config: Config
    var q: seq<Entry>
    var flags: Flags
    var state: TState
    var sbTelopt: byte
    var buffer: seq<byte>
    var size: nat
    ghost var overrun: bool
    /** The event handler's calls, oldest first. */
    var log: seq<TEvent>

    /** The abstract engine: only the concatenation of DATA events is observed. */
    ghost function Abs(): Engine
      reads this
    {
      Engine(q, flags, state, sbTelopt, buffer, size, overrun, Flatten(log))
    }

    ghost predicate Valid()
      reads this
    {
      |buffer| <= size && size in SIZES && state != InSkip
    }

    constructor (config: Config, flags: Flags)
      ensures Valid() && this.config == config
      ensures Abs() == Engine([], flags, InData, 0, [], 0, false, [])
    {
      this.config, this.flags := config, flags;
      q, state, sbTelopt, buffer, size, overrun, log := [], InData, 0, [], 0, false, [];
    }

    method Raise(e: TEvent)
      modifies `log
      ensures Abs() == Emit(old(Abs()), AtomsOf(e))
    {
      assert (log + [e])[..|log + [e]| - 1] == log;
      log := log + [e];
    }

    /** _get_rfc1143. */
    method GetOption(opt: byte) returns (x: Sides)
      ensures x == Lookup(q, opt)
    {
      for i := 0 to |q|
        invariant Lookup(q, opt) == Lookup(q[i..], opt)
      {
        if q[i].telopt == opt { return q[i].sides; }
        assert q[i..][1..] == q[i + 1..];
      }
      return Sides(No, No);
    }

    /** _set_rfc1143: change the entry, or append one. */
    method SetOptionState(opt: byte, x: Sides)
      modifies `q, `flags
      ensures Abs() == SetOption(old(Abs()), opt, x)
    {
      for i := 0 to |q|
        invariant q == old(q) && flags == old(flags)
        invariant forall j :: 0 <= j < i ==> q[j].telopt != opt
      {
        if q[i].telopt == opt {
          UpdateFound(q, i, opt, x);
          hide Flatten, Update, Tracked;
          q := q[i := Entry(opt, x)];
          if opt == BINARY {
            flags := flags.(transmitBinary := x.us == Yes, receiveBinary := x.him == Yes);
          }
          return;
        }
      }
      UpdateMissing(q, opt, x);
      hide Flatten, Update, Tracked;
      q := q + [Entry(opt, x)];
    }

    /** The other peer offers to enable its side, or confirms a DO. */
    method OnWill(opt: byte, x: Sides)
      requires x == Lookup(q, opt)
      modifies `q, `flags, `log
      ensures Abs() == Negotiate(config, old(Abs()), Will, opt)
    {
      hide Lookup, SetOption, Flatten, Update, Tracked, CommandBytes;
      assert x == Lookup(old(Abs()).q, opt);
      match x.him {
        case No =>
          if opt in config.him {
            SetOptionState(opt, Sides(x.us, Yes));
            Raise(Send(CommandBytes(Do, opt)));
            Raise(Negotiated(Will, opt));
          } else {
            Raise(Send(CommandBytes(Dont, opt)));
          }
        case WantNo =>
          SetOptionState(opt, Sides(x.us, No));
          Raise(Negotiated(Wont, opt));
          Raise(Warning);
        case WantNoOp =>
          SetOptionState(opt, Sides(x.us, Yes));
          Raise(Warning);
        case WantYes =>
          SetOptionState(opt, Sides(x.us, Yes));
          Raise(Negotiated(Will, opt));
        case WantYesOp =>
          SetOptionState(opt, Sides(x.us, WantNo));
          Raise(Send(CommandBytes(Dont, opt)));
          Raise(Negotiated(Will, opt));
        case Yes =>
      }
    }

    /** The other peer disables its side, confirms a DONT or rejects a DO. */
    method OnWont(opt: byte, x: Sides)
      requires x == Lookup(q, opt)
      modifies `q, `flags, `log
      ensures Abs() == Negotiate(config, old(Abs()), Wont, opt)
    {
      hide Lookup, SetOption, Flatten, Update, Tracked, CommandBytes;
      assert x == Lookup(old(Abs()).q, opt);
      match x.him {
        case Yes =>
          SetOptionState(opt, Sides(x.us, No));
          Raise(Send(CommandBytes(Dont, opt)));
          Raise(Negotiated(Wont, opt));
        case WantNo =>
          SetOptionState(opt, Sides(x.us, No));
          Raise(Negotiated(Wont, opt));
        case WantNoOp =>
          SetOptionState(opt, Sides(x.us, WantYes));
          Raise(Send(CommandBytes(Do, opt)));
          Raise(Negotiated(Wont, opt));
        case WantYes => SetOptionState(opt, Sides(x.us, No));
        case WantYesOp => SetOptionState(opt, Sides(x.us, No));
        case No =>
      }
    }

    /** The other peer asks us to enable our side, or confirms a WILL. */
    method OnDo(opt: byte, x: Sides)
      requires x == Lookup(q, opt)
      modifies `q, `flags, `log
      ensures Abs() == Negotiate(config, old(Abs()), Do, opt)
    {
      hide Lookup, SetOption, Flatten, Update, Tracked, CommandBytes;
      assert x == Lookup(old(Abs()).q, opt);
      match x.us {
        case No =>
          if opt in config.us {
            SetOptionState(opt, Sides(Yes, x.him));
            Raise(Send(CommandBytes(Will, opt)));
            Raise(Negotiated(Do, opt));
          } else {
            Raise(Send(CommandBytes(Wont, opt)));
          }
        case WantNo =>
          SetOptionState(opt, Sides(No, x.him));
          Raise(Negotiated(Dont, opt));
          Raise(Warning);
        case WantNoOp =>
          SetOptionState(opt, Sides(Yes, x.him));
          Raise(Warning);
        case WantYes =>
          SetOptionState(opt, Sides(Yes, x.him));
          Raise(Negotiated(Do, opt));
        case WantYesOp =>
          SetOptionState(opt, Sides(WantNo, x.him));
          Raise(Send(CommandBytes(Wont, opt)));
          Raise(Negotiated(Do, opt));
        case Yes =>
      }
    }

    /** The other peer asks us to disable our side, confirms a WONT or rejects a WILL. */
    method OnDont(opt: byte, x: Sides)
      requires x == Lookup(q, opt)
      modifies `q, `flags, `log
      ensures Abs() == Negotiate(config, old(Abs()), Dont, opt)
    {
      hide Lookup, SetOption, Flatten, Update, Tracked, CommandBytes;
      assert x == Lookup(old(Abs()).q, opt);
      match x.us {
        case Yes =>
          SetOptionState(opt, Sides(No, x.him));
          Raise(Send(CommandBytes(Wont, opt)));
          Raise(Negotiated(Dont, opt));
        case WantNo =>
          SetOptionState(opt, Sides(No, x.him));
          Raise(Negotiated(Dont, opt));
        case WantNoOp =>
          SetOptionState(opt, Sides(WantYes, x.him));
          Raise(Send(CommandBytes(Will, opt)));
          Raise(Negotiated(Dont, opt));
        case WantYes => SetOptionState(opt, Sides(No, x.him));
        case WantYesOp => SetOptionState(opt, Sides(No, x.him));
        case No =>
      }
    }

    /** _negotiate. */
    method NegotiateOption(cmd: Command, opt: byte)
      modifies `q, `flags, `log
      ensures Abs() == Negotiate(config, old(Abs()), cmd, opt)
    {
      var x := GetOption(opt);
      match cmd {
        case Will => OnWill(opt, x);
        case Wont => OnWont(opt, x);
        case Do => OnDo(opt, x);
        case Dont => OnDont(opt, x);
      }
    }

    /** telnet_negotiate. */
    method RequestOption(cmd: Command, opt: byte)
      modifies `q, `flags, `log
      ensures Abs() == Request(old(Abs()), cmd, opt)
    {
      var x := GetOption(opt);
      hide Lookup, SetOption, Flatten, Update, Tracked, CommandBytes;
      assert x == Lookup(old(Abs()).q, opt);
      match cmd {
        case Will =>
          match x.us {
            case No =>
              SetOptionState(opt, Sides(WantYes, x.him));
              Raise(Send(CommandBytes(Will, opt)));
            case WantNo => SetOptionState(opt, Sides(WantNoOp, x.him));
            case WantYesOp => SetOptionState(opt, Sides(WantYes, x.him));
            case _ =>
          }
        case Wont =>
          match x.us {
            case Yes =>
              SetOptionState(opt, Sides(WantNo, x.him));
              Raise(Send(CommandBytes(Wont, opt)));
            case WantYes => SetOptionState(opt, Sides(WantYesOp, x.him));
            case WantNoOp => SetOptionState(opt, Sides(WantNo, x.him));
            case _ =>
          }
        case Do =>
          match x.him {
            case No =>
              SetOptionState(opt, Sides(x.us, WantYes));
              Raise(Send(CommandBytes(Do, opt)));
            case WantNo => SetOptionState(opt, Sides(x.us, WantNoOp));
            case WantYesOp => SetOptionState(opt, Sides(x.us, WantYes));
            case _ =>
          }
        case Dont =>
          match x.him {
            case Yes =>
              SetOptionState(opt, Sides(x.us, WantNo));
              Raise(Send(CommandBytes(Dont, opt)));
            case WantYes => SetOptionState(opt, Sides(x.us, WantYesOp));
            case WantNoOp => SetOptionState(opt, Sides(x.us, WantNo));
            case _ =>
          }
      }
    }

    /** _buffer_byte, up to its caller's change of state. */
    method AppendByte(b: byte) returns (ok: bool)
      requires Valid()
      modifies `buffer, `size, `log
      ensures Valid()
      ensures ok <==> !Full(old(Abs()))
      ensures Abs() == BufferByte(old(Abs()), b).(state := state)
    {
      if |buffer| == size {
        var i := 0;
        while i < |SIZES| && SIZES[i] != size
          invariant 0 <= i <= |SIZES| && forall j :: 0 <= j < i ==> SIZES[j] != size
        {
          i := i + 1;
        }
        if i >= |SIZES| - 1 {
          Raise(Warning);
          return false;
        }
        size := SIZES[i + 1];
      }
      buffer := buffer + [b];
      return true;
    }

    method SubnegotiateOption()
      modifies `log
      ensures Abs() == Subnegotiated(config, old(Abs()))
    {
      Raise(Subnegotiation(sbTelopt, buffer));
      if sbTelopt in config.special {
        Raise(Special(sbTelopt, buffer));
      }
    }

    /** Hand a pending slice of data on, if there is one. */
    method Flush(s: seq<byte>)
      requires state == InData
      modifies `log
      ensures Abs() == WithPending(old(Abs()), s)
    {
      if s != [] {
        Raise(Data(s));
      } else {
        assert Flatten(log) + [] == Flatten(log);
      }
    }

    /**
     * telnet_recv without compression: _process. The input must not end with, and no IAC or translated
     * carriage return may follow, MCCPv1's IAC SB 85 WILL: there the original raises a DATA event
     * of length -1.
     */
    method Process(input: seq<byte>)
      requires Valid() && !Feed(config, Abs(), input).overrun && Feed(config, Abs(), input).state != InSkip
      modifies `q, `flags, `state, `sbTelopt, `buffer, `size, `log
      ensures Valid() && Abs() == Feed(config, old(Abs()), input)
      decreases if state == InIac && |input| == 1 then 0 else 1, 1
    {
      hide Feed, FeedByte;
      ghost var e := Abs();
      FeedNothing(config, e);
      SeenNothing(e, input, 0);
      var i, start := 0, 0;
      assert input[..0] == [];
      while i != |input|
        invariant 0 <= i <= |input| && 0 <= start && (state == InData ==> start <= i + 1)
        invariant Valid() && (i == 0 ==> state == old(state))
        invariant Seen(Abs(), input, start, i) == Feed(config, e, input[..i])
        decreases |input| - i
      {
        FeedSnoc(config, e, input, i);
        OverrunSticks(config, e, input, i + 1);
        start := ProcessByte(input, i, start);
        i := i + 1;
      }
      assert input[..i] == input;
      if state == InData {
        Flush(input[start..i]);
      }
    }

    /** However a stream is cut into chunks, the parser ends in the state, and with the events, of the whole. */
    method ProcessChunks(chunks: seq<seq<byte>>)
      requires Valid() && !Feed(config, Abs(), Concat(chunks)).overrun
      requires forall n :: 0 <= n <= |chunks| ==> Feed(config, Abs(), Concat(chunks[..n])).state != InSkip
      modifies `q, `flags, `state, `sbTelopt, `buffer, `size, `log
      ensures Valid() && Abs() == Feed(config, old(Abs()), Concat(chunks))
    {
      hide Feed, Flatten, Concat;
      ghost var e := Abs();
      FeedNothing(config, e);
      ConcatNothing();
      assert chunks[..0] == [];
      for n := 0 to |chunks|
        invariant Valid() && Abs() == Feed(config, e, Concat(chunks[..n]))
      {
        ConcatMore(chunks, n);
        ConcatPrefix(chunks, n + 1);
        FeedAppend(config, e, Concat(chunks[..n]), chunks[n]);
        OverrunSticks(config, e, Concat(chunks), |Concat(chunks[..n + 1])|);
        Process(chunks[n]);
      }
      assert chunks[..|chunks|] == chunks;
    }

    method ProcessData(input: seq<byte>, i: nat, start: nat) returns (start': nat)
      requires state == InData && i < |input| && start <= i + 1
      requires !FeedByte(config, Seen(Abs(), input, start, i), input[i]).overrun
      modifies `state, `log
      ensures state != InSkip && (state == InData ==> start' <= i + 1)
      ensures Seen(Abs(), input, start', i + 1) == FeedByte(config, Seen(old(Abs()), input, start, i), input[i])
    {
      hide Flatten, Negotiate, BufferByte, Subnegotiated;
      var byte := input[i];
      start' := start;
      if byte == IAC {
        Flush(input[start..i]);
        state := InIac;
      } else if byte == CR && flags.nvtEol && !flags.receiveBinary {
        Flush(input[start..i]);
        state := InEol;
      } else if start <= i {
        PendingPlain(config, Abs(), input[start..i], byte);
        assert input[start..i + 1] == input[start..i] + [byte];
      } else {
        SeenNothing(Abs(), input, i + 1);
      }
    }

    /** After a carriage return: CR LF is a newline, CR NUL a carriage return, anything else is kept. */
    method ProcessEol(input: seq<byte>, i: nat) returns (start': nat)
      requires state == InEol && i < |input|
      modifies `state, `log
      ensures state == InData && start' <= i + 1
      ensures Seen(Abs(), input, start', i + 1) == FeedByte(config, old(Abs()), input[i])
    {
      hide Flatten, Negotiate, BufferByte, Subnegotiated;
      var byte := input[i];
      if byte != LF {
        Raise(Data([CR]));
        assert DataAtoms([CR]) == [DataByte(CR)];
      }
      start' := if byte == NUL then i + 1 else i;
      state := InData;
      assert DataAtoms(input[start'..i + 1]) == if byte == NUL then [] else [DataByte(byte)];
    }

    method ProcessIac(input: seq<byte>, i: nat, start: nat) returns (start': nat)
      requires state == InIac && i < |input|
      modifies `state, `log
      ensures state != InSkip && (state == InData ==> start' <= i + 1)
      ensures Seen(Abs(), input, start', i + 1) == FeedByte(config, old(Abs()), input[i])
    {
      hide Flatten, Negotiate, BufferByte, Subnegotiated;
      var byte := input[i];
      start' := start;
      if byte == SB {
        state := InSb;
      } else if byte == WILL {
        state := InCommand(Will);
      } else if byte == WONT {
        state := InCommand(Wont);
      } else if byte == DO {
        state := InCommand(Do);
      } else if byte == DONT {
        state := InCommand(Dont);
      } else {
        if byte == IAC {
          Raise(Data([byte]));
          assert DataAtoms([byte]) == [DataByte(byte)];
        } else {
          Raise(IacCommand(byte));
        }
        start' := i + 1;
        state := InData;
        SeenNothing(Abs(), input, i + 1);
      }
    }

    method ProcessSubData(input: seq<byte>, i: nat, start: nat) returns (start': nat)
      requires state == InSbData && i < |input| && Valid()
      requires !FeedByte(config, Abs(), input[i]).overrun
      modifies `state, `buffer, `size, `log
      ensures Valid() && (state == InData ==> start' <= i + 2)
      ensures Seen(Abs(), input, start', i + 1) == FeedByte(config, old(Abs()), input[i])
    {
      hide Flatten, Negotiate, Subnegotiated;
      var byte := input[i];
      start' := start;
      if byte == IAC {
        state := InSbIac;
      } else if sbTelopt == COMPRESS && byte == WILL {
        start' := i + 2;
        state := InData;
      } else {
        var ok := AppendByte(byte);
        if !ok {
          start' := i + 1;
          state := InData;
          SeenNothing(Abs(), input, i + 1);
        }
      }
    }

    /** IAC inside a subnegotiation: its end, an escaped IAC, or a command that cuts it short. */
    method ProcessSubIac(input: seq<byte>, i: nat, start: nat) returns (start': nat)
      requires state == InSbIac && i < |input| && Valid()
      requires !FeedByte(config, Abs(), input[i]).overrun
      modifies `q, `flags, `state, `sbTelopt, `buffer, `size, `log
      ensures Valid() && (state == InData ==> start' <= i + 1)
      ensures Seen(Abs(), input, start', i + 1) == FeedByte(config, old(Abs()), input[i])
      decreases 0, 2
    {
      hide Flatten, Negotiate;
      var byte := input[i];
      start' := start;
      if byte == SE {
        start' := i + 1;
        state := InData;
        SubnegotiateOption();
        SeenNothing(Abs(), input, i + 1);
      } else if byte == IAC {
        var ok := AppendByte(IAC);
        if ok {
          state := InSbData;
        } else {
          start' := i + 1;
          state := InData;
          SeenNothing(Abs(), input, i + 1);
        }
      } else {
        Raise(Warning);
        start' := i + 1;
        state := InIac;
        SubnegotiateOption();
        Feed1(config, Abs(), byte);
        Process([byte]);
        SeenNothing(Abs(), input, i + 1);
      }
    }

    /** One round of the loop of _process: byte i, with the pending data starting at start. */
    method ProcessByte(input: seq<byte>, i: nat, start: nat) returns (start': nat)
      requires Valid() && i < |input| && (state == InData ==> start <= i + 1)
      requires !FeedByte(config, Seen(Abs(), input, start, i), input[i]).overrun
      modifies `q, `flags, `state, `sbTelopt, `buffer, `size, `log
      ensures Valid() && (state == InData ==> start' <= i + 2)
      ensures Seen(Abs(), input, start', i + 1) == FeedByte(config, Seen(old(Abs()), input, start, i), input[i])
      decreases if state == InSbIac then 1 else 0, 0
    {
      hide Flatten, Negotiate, BufferByte, Subnegotiated, FeedIac;
      start' := start;
      match state {
        case InData => start' := ProcessData(input, i, start);
        case InEol => start' := ProcessEol(input, i);
        case InIac => start' := ProcessIac(input, i, start);
        case InCommand(cmd) =>
          NegotiateOption(cmd, input[i]);
          start' := i + 1;
          state := InData;
          SeenNothing(Abs(), input, i + 1);
        case InSb =>
          sbTelopt := input[i];
          buffer := [];
          state := InSbData;
        case InSbData => start' := ProcessSubData(input, i, start);
        case InSbIac => start' := ProcessSubIac(input, i, start);
      }
    }

    // ----- sending -----

    /** _send. */
    method SendBytes(s: seq<byte>)
      modifies `log
      ensures old(log) <= log && OnWire(Flatten(log)) == OnWire(Flatten(old(log))) + s
    {
      assert (log + [Send(s)])[..|log|] == log;
      OnWireOneMore(Flatten(log), Other(Send(s)));
      log := log + [Send(s)];
    }

    /** telnet_iac. */
    method SendIac(cmd: byte)
      modifies `log
      ensures old(log) <= log && OnWire(Flatten(log)) == OnWire(Flatten(old(log))) + [IAC, cmd]
    {
      SendBytes([IAC, cmd]);
    }

    /** Hand on the stretch of text passed over so far, if there is any. */
    method SendSlice(s: seq<byte>, l: nat, i: nat)
      requires l <= i <= |s|
      modifies `log
      ensures old(log) <= log && OnWire(Flatten(log)) == OnWire(Flatten(old(log))) + s[l..i]
    {
      if i != l { SendBytes(s[l..i]); }
    }

    /** telnet_send: hand plain stretches to the application whole, and double each IAC. */
    method SendEscaped(s: seq<byte>)
      modifies `log
      ensures old(log) <= log && OnWire(Flatten(log)) == OnWire(Flatten(old(log))) + Escape(s)
    {
      hide OnWire, Flatten;
      var i, l := 0, 0;
      while i != |s|
        invariant 0 <= l <= i <= |s| && old(log) <= log
        invariant OnWire(Flatten(log)) + s[l..i] == OnWire(Flatten(old(log))) + Escape(s[..i])
        decreases |s| - i
      {
        EscapeSnoc(OnWire(Flatten(old(log))), s, i);
        if s[i] == IAC {
          SendSlice(s, l, i);
          SendIac(IAC);
          l := i + 1;
        } else {
          SliceSnoc(OnWire(Flatten(log)), s, l, i);
        }
        i := i + 1;
      }
      assert s[..i] == s;
      SendSlice(s, l, i);
    }

    /** telnet_send_text. */
    method SendText(s: seq<byte>)
      modifies `log
      ensures old(log) <= log && OnWire(Flatten(log)) == OnWire(Flatten(old(log))) + EscapeText(s, flags.transmitBinary)
    {
      hide OnWire, Flatten;
      var i, l := 0, 0;
      while i != |s|
        invariant 0 <= l <= i <= |s| && old(log) <= log
        invariant OnWire(Flatten(log)) + s[l..i] == OnWire(Flatten(old(log))) + EscapeText(s[..i], flags.transmitBinary)
        decreases |s| - i
      {
        EscapeTextSnoc(OnWire(Flatten(old(log))), s, i, flags.transmitBinary);
        if s[i] == IAC {
          SendSlice(s, l, i);
          SendIac(IAC);
          l := i + 1;
        } else if !flags.transmitBinary && (s[i] == CR || s[i] == LF) {
          SendSlice(s, l, i);
          if s[i] == CR {
            SendBytes([CR, NUL]);
          } else {
            SendBytes([CR, LF]);
          }
          l := i + 1;
        } else {
          SliceSnoc(OnWire(Flatten(log)), s, l, i);
        }
        i := i + 1;
      }
      assert s[..i] == s;
      SendSlice(s, l, i);
    }

    /** telnet_subnegotiation. */
    method SendSubnegotiation(opt: byte, payload: seq<byte>)
      modifies `log
      ensures old(log) <= log && OnWire(Flatten(log)) == OnWire(Flatten(old(log))) + SubnegotiationBytes(opt, payload)
    {
      hide OnWire, Flatten, Escape;
      SendBytes([IAC, SB, opt]);
      SendEscaped(payload);
      SendBytes([IAC, SE]);
      assert OnWire(Flatten(log)) == OnWire(Flatten(old(log))) + SubnegotiationBytes(opt, payload);
    }
  }

  lemma EscapeSnoc(before: seq<byte>, s: seq<byte>, i: nat)
    requires i < |s|
    ensures before + Escape(s[..i + 1]) == before + Escape(s[..i]) + EscapeByte(s[i])
  {
    assert s[..i + 1][..i] == s[..i];
  }

  lemma EscapeTextSnoc(before: seq<byte>, s: seq<byte>, i: nat, binary: bool)
    requires i < |s|
    ensures before + EscapeText(s[..i + 1], binary)
            == before + EscapeText(s[..i], binary) + EscapeTextByte(s[i], binary)
  {
    assert s[..i + 1][..i] == s[..i];
  }

  lemma SliceSnoc(before: seq<byte>, s: seq<byte>, l: nat, i: nat)
    requires l <= i < |s|
    ensures before + s[l..i + 1] == before + s[l..i] + [s[i]]
  {
  }
}
