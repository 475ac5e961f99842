/** The encoders of src/libtelnet.c, and the round trips through the byte machine. */
module TelnetEncoding {
  import opened Bytes
  import opened Negotiation
  import opened TelnetSpec

  /** Each IAC doubled (RFC 854). */
  function EscapeByte(b: byte): seq<byte> { if b == IAC then [IAC, IAC] else [b] }

  function Escape(s: seq<byte>): seq<byte> {
    if s == [] then [] else Escape(s[..|s| - 1]) + EscapeByte(s[|s| - 1])
  }

  /** Outside binary mode, a newline becomes CR LF and a carriage return CR NUL. */
  function EscapeTextByte(b: byte, binary: bool): seq<byte> {
    if b == IAC then [IAC, IAC]
    else if !binary && b == CR then [CR, NUL]
    else if !binary && b == LF then [CR, LF]
    else [b]
  }

  function EscapeText(s: seq<byte>, binary: bool): seq<byte> {
    if s == [] then [] else EscapeText(s[..|s| - 1], binary) + EscapeTextByte(s[|s| - 1], binary)
  }

  function SubnegotiationBytes(opt: byte, payload: seq<byte>): seq<byte> {
    [IAC, SB, opt] + Escape(payload) + [IAC, SE]
  }

  /** Carriage returns reach the application as they came. */
  predicate Raw(e: Engine) { !e.flags.nvtEol || e.flags.receiveBinary }

  lemma EmitTwice(e: Engine, x: seq<Atom>, y: seq<Atom>)
    ensures Emit(Emit(e, x), y) == Emit(e, x + y)
  {
    assert x + [] == x && [] + y == y;
    assert e.atoms + x + y == e.atoms + (x + y);
  }

  lemma EmitKeeps(e: Engine, x: seq<Atom>)
    ensures Emit(e, x).state == e.state && Emit(e, x).flags == e.flags
    ensures Emit(e, []) == e
  {
  }

  lemma DataAtomsSnoc(s: seq<byte>, b: byte)
    ensures DataAtoms(s + [b]) == DataAtoms(s) + [DataByte(b)]
  {
  }

  lemma EscapeOneMore(t: seq<byte>, b: byte)
    ensures Escape(t + [b]) == Escape(t) + EscapeByte(b)
  {
    assert (t + [b])[..|t|] == t;
  }

  /** telnet_send then the parser: the same bytes, whatever they are. */
  lemma {:induction false} SendRoundTrip(c: Config, e: Engine, s: seq<byte>)
    requires e.state == InData && (Raw(e) || CR !in s)
    ensures Feed(c, e, Escape(s)) == Emit(e, DataAtoms(s))
  {
    if s != [] {
      var t, b := s[..|s| - 1], s[|s| - 1];
      var e1 := Emit(e, DataAtoms(t));
      assert CR !in s ==> CR !in t && b != CR;
      EmitKeeps(e, DataAtoms(t));
      assert Raw(e1) == Raw(e) && e1.state == e.state;
      assert s == t + [b];
      EscapeOneMore(t, b);
      hide *;
      SendRoundTrip(c, e, t);
      FeedAppend(c, e, Escape(t), EscapeByte(b));
      EscapedByteFed(c, e1, b);
      EmitTwice(e, DataAtoms(t), [DataByte(b)]);
      DataAtomsSnoc(t, b);
    } else {
      hide FeedByte;
      assert DataAtoms(s) == [];
      EmitKeeps(e, []);
    }
  }

  lemma EscapedByteFed(c: Config, e: Engine, b: byte)
    requires e.state == InData && (Raw(e) || b != CR)
    ensures Feed(c, e, EscapeByte(b)) == Emit(e, [DataByte(b)])
  {
    hide Negotiate, Subnegotiated, BufferByte;
    if b == IAC {
      Feed2(c, e, IAC, IAC);
    } else {
      Feed1(c, e, b);
    }
  }

  /** telnet_send_text then the parser with line-end translation: the same text. */
  lemma {:induction false} TextRoundTrip(c: Config, e: Engine, s: seq<byte>)
    requires e.state == InData && e.flags.nvtEol && !e.flags.receiveBinary
    ensures Feed(c, e, EscapeText(s, false)) == Emit(e, DataAtoms(s))
  {
    if s != [] {
      var t, b := s[..|s| - 1], s[|s| - 1];
      var e1 := Emit(e, DataAtoms(t));
      EmitKeeps(e, DataAtoms(t));
      assert EscapeText(s, false) == EscapeText(t, false) + EscapeTextByte(b, false);
      hide *;
      TextRoundTrip(c, e, t);
      FeedAppend(c, e, EscapeText(t, false), EscapeTextByte(b, false));
      TextByteFed(c, e1, b);
      EmitTwice(e, DataAtoms(t), [DataByte(b)]);
      DataAtomsSnoc(t, b);
      assert s == t + [b];
    } else {
      hide FeedByte;
      assert DataAtoms(s) == [];
      EmitKeeps(e, []);
    }
  }

  lemma TextByteFed(c: Config, e: Engine, b: byte)
    requires e.state == InData && e.flags.nvtEol && !e.flags.receiveBinary
    ensures Feed(c, e, EscapeTextByte(b, false)) == Emit(e, [DataByte(b)])
  {
    hide Negotiate, Subnegotiated, BufferByte;
    if b == IAC {
      Feed2(c, e, IAC, IAC);
    } else if b == CR {
      Feed2(c, e, CR, NUL);
    } else if b == LF {
      Feed2(c, e, CR, LF);
    } else {
      Feed1(c, e, b);
    }
  }

  // ----- subnegotiations -----

  /** The buffer size after n bytes were put into a buffer of a given size. */
  function SizeFor(size: nat, n: nat): nat {
    if n <= size then size else if n <= 512 then 512 else if n <= 2048 then 2048
    else if n <= 8192 then 8192 else 16384
  }

  /** Inside a subnegotiation, an escaped payload that fits is buffered as it was. */
  lemma {:induction false} PayloadBuffered(c: Config, e: Engine, opt: byte, p: seq<byte>)
    requires e.state == InSbData && e.buffer == [] && e.sbTelopt == opt != COMPRESS && e.size in SIZES
    requires |p| <= MAX_SUBNEGOTIATION
    ensures Feed(c, e, Escape(p)) == e.(buffer := p, size := SizeFor(e.size, |p|))
  {
    hide *;
    if p == [] {
      NothingBuffered(c, e);
    } else {
      var t, b := p[..|p| - 1], p[|p| - 1];
      assert t + [b] == p;
      EscapeOneMore(t, b);
      PayloadBuffered(c, e, opt, t);
      FeedAppend(c, e, Escape(t), EscapeByte(b));
      PayloadByte(c, e.(buffer := t, size := SizeFor(e.size, |t|)), b);
      BufferGrows(e, t, b);
    }
  }

  lemma NothingBuffered(c: Config, e: Engine)
    requires e.state == InSbData && e.buffer == []
    ensures Feed(c, e, Escape([])) == e.(buffer := [], size := SizeFor(e.size, 0))
  {
    hide FeedByte;
    FeedNothing(c, e);
    assert e.(buffer := [], size := SizeFor(e.size, 0)) == e;
  }

  lemma BufferGrows(e: Engine, t: seq<byte>, b: byte)
    requires e.state == InSbData && e.size in SIZES && |t| < MAX_SUBNEGOTIATION
    ensures BufferByte(e.(buffer := t, size := SizeFor(e.size, |t|)), b)
         == e.(buffer := t + [b], size := SizeFor(e.size, |t + [b]|))
  {
  }

  lemma PayloadByte(c: Config, e: Engine, b: byte)
    requires e.state == InSbData && e.sbTelopt != COMPRESS
    ensures Feed(c, e, EscapeByte(b)) == BufferByte(e, b)
  {
    hide Negotiate, Subnegotiated;
    if b == IAC {
      Feed2(c, e, IAC, IAC);
    } else {
      Feed1(c, e, b);
    }
  }

  lemma SubnegotiationOpens(c: Config, e: Engine, opt: byte)
    requires e.state == InData
    ensures Feed(c, e, [IAC, SB, opt]) == e.(sbTelopt := opt, buffer := [], state := InSbData)
  {
    hide Negotiate, Subnegotiated, BufferByte;
    assert [IAC, SB, opt][..2] == [IAC, SB];
    Feed2(c, e, IAC, SB);
  }

  lemma SubnegotiationCloses(c: Config, e: Engine)
    requires e.state == InSbData
    ensures Feed(c, e, [IAC, SE]) == Subnegotiated(c, e).(state := InData)
  {
    hide Negotiate, BufferByte;
    Feed2(c, e, IAC, SE);
    hide Subnegotiated;
    SubnegotiatedInAnyState(c, e, InSbIac);
  }

  lemma SubnegotiatedInAnyState(c: Config, e: Engine, t: TState)
    ensures Subnegotiated(c, e.(state := t)).(state := InData) == Subnegotiated(c, e).(state := InData)
  {
  }

  ghost predicate Appends(e: Engine, e': Engine) { e.atoms <= e'.atoms }

  lemma ByteAppends(c: Config, e: Engine, b: byte)
    ensures Appends(e, FeedByte(c, e, b))
  {
    hide Negotiate;
    if e.state.InCommand? {
      NegotiateAppends(c, e, e.state.c, b);
    }
  }

  lemma NegotiateAppends(c: Config, e: Engine, cmd: Command, opt: byte)
    ensures Appends(e, Negotiate(c, e, cmd, opt))
  {
    hide Lookup, Update, Tracked, Receive, Notice, Touches, SetOption;
    assert forall t: byte, x: Sides :: SetOption(e, t, x).atoms == e.atoms by { SetKeepsAtoms(e); }
  }

  lemma SetKeepsAtoms(e: Engine)
    ensures forall t: byte, x: Sides :: SetOption(e, t, x).atoms == e.atoms
  {
  }

  lemma {:induction false} FeedAppends(c: Config, e: Engine, s: seq<byte>)
    ensures Appends(e, Feed(c, e, s))
  {
    hide FeedByte;
    if s != [] {
      FeedAppends(c, e, s[..|s| - 1]);
      ByteAppends(c, Feed(c, e, s[..|s| - 1]), s[|s| - 1]);
    }
  }

  lemma {:induction false} EscapeSplit(p: seq<byte>, n: nat)
    requires n <= |p|
    ensures Escape(p) == Escape(p[..n]) + Escape(p[n..])
    decreases |p|
  {
    if n == |p| {
      assert p[..n] == p && p[n..] == [];
    } else {
      var t, b := p[..|p| - 1], p[|p| - 1];
      var y := p[n..];
      assert y != [] && y[..|y| - 1] == t[n..] && y[|y| - 1] == b && t[..n] == p[..n];
      assert Escape(p) == Escape(t) + EscapeByte(b) && Escape(y) == Escape(t[n..]) + EscapeByte(b);
      hide *;
      EscapeSplit(t, n);
    }
  }

  /** What the application is told of a payload: the payload, whole, and once more if its option is parsed. */
  function PayloadNews(c: Config, opt: byte, p: seq<byte>): seq<Atom> {
    [Other(Subnegotiation(opt, p))] + if opt in c.special then [Other(Special(opt, p))] else []
  }

  lemma SubnegotiatedNews(c: Config, e: Engine)
    ensures Subnegotiated(c, e) == e.(atoms := e.atoms + PayloadNews(c, e.sbTelopt, e.buffer))
  {
    var told := e.atoms + [Other(Subnegotiation(e.sbTelopt, e.buffer))];
    assert told + [] == told;
  }

  /**
   * A complete subnegotiation gives one SUBNEGOTIATION event with its payload, changes neither options
   * nor flags, and leaves the parser in the data state with the buffer grown along the table of sizes;
   * this holds if and only if the payload is no longer than the largest buffer. A longer payload is cut
   * off with a warning before anything else is reported.
   */
  lemma SubnegotiationRoundTrip(c: Config, e: Engine, opt: byte, p: seq<byte>)
    requires e.state == InData && opt != COMPRESS && e.size in SIZES
    ensures var e' := Feed(c, e, SubnegotiationBytes(opt, p));
      if |p| <= MAX_SUBNEGOTIATION then
        e' == e.(sbTelopt := opt, buffer := p, size := SizeFor(e.size, |p|), atoms := e.atoms + PayloadNews(c, opt, p))
      else
        |e'.atoms| > |e.atoms| && e'.atoms[|e.atoms|] == Other(Warning)
  {
    hide Feed, FeedByte, Subnegotiated, Escape;
    var open := e.(sbTelopt := opt, buffer := [], state := InSbData);
    SubnegotiationOpens(c, e, opt);
    FeedAppend(c, e, [IAC, SB, opt], Escape(p));
    FeedAppend(c, e, [IAC, SB, opt] + Escape(p), [IAC, SE]);
    if |p| <= MAX_SUBNEGOTIATION {
      PayloadBuffered(c, open, opt, p);
      var full := open.(buffer := p, size := SizeFor(e.size, |p|));
      SubnegotiationCloses(c, full);
      SubnegotiatedNews(c, full);
    } else {
      LongPayloadWarns(c, open, opt, p);
      FeedAppends(c, Feed(c, open, Escape(p)), [IAC, SE]);
    }
  }

  lemma LongPayloadWarns(c: Config, e: Engine, opt: byte, p: seq<byte>)
    requires e.state == InSbData && e.buffer == [] && e.sbTelopt == opt != COMPRESS && e.size in SIZES
    requires |p| > MAX_SUBNEGOTIATION
    ensures Appends(Emit(e, [Other(Warning)]), Feed(c, e, Escape(p)))
  {
    hide Feed, FeedByte;
    var cut := MAX_SUBNEGOTIATION;
    PayloadBuffered(c, e, opt, p[..cut]);
    var full := e.(buffer := p[..cut], size := SizeFor(e.size, cut));
    EscapeSplit(p, cut + 1);
    assert Escape(p[..cut + 1]) == Escape(p[..cut]) + EscapeByte(p[cut]) by { assert p[..cut + 1][..cut] == p[..cut]; }
    FeedAppend(c, e, Escape(p[..cut]), EscapeByte(p[cut]));
    PayloadByte(c, full, p[cut]);
    FeedAppend(c, e, Escape(p[..cut + 1]), Escape(p[cut + 1..]));
    FeedAppends(c, BufferByte(full, p[cut]), Escape(p[cut + 1..]));
  }

  /**
   * A payload that IAC and another byte cut short: a warning, then the same event with what there was of
   * the payload, and the byte is taken as a command.
   */
  lemma SubnegotiationCutShort(c: Config, e: Engine, opt: byte, p: seq<byte>, b: byte)
    requires e.state == InData && opt != COMPRESS && e.size in SIZES
    requires |p| <= MAX_SUBNEGOTIATION && b != SE && b != IAC
    ensures Feed(c, e, [IAC, SB, opt] + Escape(p) + [IAC, b])
         == Feed(c, e.(sbTelopt := opt, buffer := p, size := SizeFor(e.size, |p|),
                       atoms := e.atoms + [Other(Warning)] + PayloadNews(c, opt, p)), [IAC, b])
  {
    hide Feed, FeedByte, Subnegotiated, Escape;
    var open := e.(sbTelopt := opt, buffer := [], state := InSbData);
    SubnegotiationOpens(c, e, opt);
    FeedAppend(c, e, [IAC, SB, opt], Escape(p));
    FeedAppend(c, e, [IAC, SB, opt] + Escape(p), [IAC, b]);
    PayloadBuffered(c, open, opt, p);
    CutShort(c, open.(buffer := p, size := SizeFor(e.size, |p|)), b);
  }

  lemma CutShort(c: Config, e: Engine, b: byte)
    requires e.state == InSbData && b != SE && b != IAC
    ensures var e1 := e.(state := InData, atoms := e.atoms + [Other(Warning)] + PayloadNews(c, e.sbTelopt, e.buffer));
      Feed(c, e, [IAC, b]) == Feed(c, e1, [IAC, b])
  {
    hide Negotiate, BufferByte, Subnegotiated, FeedIac, PayloadNews;
    var e1 := e.(state := InData, atoms := e.atoms + [Other(Warning)] + PayloadNews(c, e.sbTelopt, e.buffer));
    Feed2(c, e, IAC, b);
    Feed2(c, e1, IAC, b);
    SubnegotiatedNews(c, Emit(e.(state := InSbIac), [Other(Warning)]));
  }

  /** IAC and a byte that is no option command, no subnegotiation and no IAC is reported as that command. */
  lemma OtherCommandReported(c: Config, e: Engine, b: byte)
    requires e.state == InData && b !in {SB, WILL, WONT, DO, DONT, IAC}
    ensures Feed(c, e, [IAC, b]) == e.(atoms := e.atoms + [Other(IacCommand(b))])
  {
    hide Negotiate, Subnegotiated, BufferByte;
    Feed2(c, e, IAC, b);
  }
}
