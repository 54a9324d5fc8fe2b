/** The buffering and the state machine of authenticated modes (`authenc.cpp`), on values. */
module AeadMachine {
  import opened Numbers
  import opened Wrappers
  import opened Bytes
  import opened Ciphers
  import opened AeadState
  import opened AeadModes
  import Ccm

  /** `State_Start` to `State_AuthFooter`, in the order the code compares them. */
  datatype State = Start | KeySet | IVSet | AuthUntransformed | AuthTransformed | AuthFooter {
    /** `m_state >= State_IVSet` */
    predicate HasIV() { !Start? && !KeySet? }

    predicate InMessage() { AuthUntransformed? || AuthTransformed? }
  }

  datatype Error = NoError | BadState | InvalidArgument

  /** The fields of an object; `held` is the used part of the buffer, `pos` the key stream position. */
  datatype Machine = Machine(mode: Mode, encrypting: bool, state: State, inner: Inner, held: bytes,
                             totalHeader: nat, totalMessage: nat, totalFooter: nat, pos: nat)
  {
    predicate Shape() {
      && mode.Valid() && |held| < mode.BlockSize()
      && (mode.CcmMode? ==> |inner.mac| == 16)
      && (state.HasIV() ==> mode.InStep(inner))
    }
  }

  /** What `AuthenticateData` does: everything held and given, up to its last whole block. */
  function Authenticated(m: Machine, input: bytes): (t: Machine)
    requires m.Shape() && m.mode.InStep(m.inner)
    ensures t.Shape()
  {
    m.(inner := Front(m.mode, m.inner, m.held + input), held := Tail(m.mode, m.held + input))
  }

  /** `SetKey`, with an IV among the parameters or without. */
  function Keyed(m: Machine, key: bytes, iv: Option<bytes>): (r: (Machine, Error))
    requires m.Shape()
    ensures r.0.Shape()
  {
    var t := m.(state := KeySet, held := [], inner := m.inner.(key := key, lengthBytes := 8));
    match iv
    case None => (t, NoError)
    case Some(v) => Resynchronized(t, v)
  }

  /** `Resynchronize` */
  function Resynchronized(m: Machine, iv: bytes): (r: (Machine, Error))
    requires m.Shape()
    ensures r.0.Shape()
  {
    if m.state.Start? then (m, BadState)
    else
      var t := m.(held := [], totalHeader := 0, totalMessage := 0, totalFooter := 0, state := KeySet);
      if |iv| < m.mode.MinIVLength() || |iv| > m.mode.MaxIVLength() then (t, InvalidArgument)
      else (t.(inner := m.mode.Resync(m.inner, iv), pos := m.mode.StreamStart(), state := IVSet), NoError)
  }

  /**
   * `SpecifyDataLengths`, without footer data. Only CCM acts on it: the first block of its MAC is
   * enciphered, with the nonce read back from the buffer, and the length prefix is held as if it
   * were header data.
   */
  function Specified(m: Machine, nonce: bytes, headerLength: nat, messageLength: nat): (r: (Machine, Error))
    requires m.Shape()
    requires m.mode.CcmMode? && m.state.IVSet? ==> |nonce| == 15 - m.inner.lengthBytes
    ensures r.0.Shape()
  {
    if headerLength > m.mode.MaxHeaderLength() || messageLength > m.mode.MaxMessageLength(m.inner) then (m, InvalidArgument)
    else if !m.mode.CcmMode? then (m, NoError)
    else if !m.state.IVSet? then (m, BadState)
    else
      var first := Ccm.FirstBlock(m.mode.digestSize, m.inner.lengthBytes, nonce, headerLength, messageLength);
      (m.(inner := m.inner.(aadLength := headerLength, messageLength := messageLength,
                            mac := m.mode.ccm.Cipher(m.inner.key).Process(first)),
          held := if headerLength > 0 then Ccm.HeaderPrefix(headerLength) else m.held), NoError)
  }

  /** `Update`: header data before the message, footer data after it. */
  function Updated(m: Machine, input: bytes): (r: (Machine, Error))
    requires m.Shape()
    ensures r.0.Shape()
  {
    if input == [] then (m, NoError)
    else match m.state
    case Start => (m, BadState)
    case KeySet => (m, BadState)
    case IVSet =>
      (Authenticated(m, input).(totalHeader := (m.totalHeader + |input|) % LWORD), NoError)
    case AuthFooter =>
      (Authenticated(m, input).(totalFooter := (m.totalFooter + |input|) % LWORD), NoError)
    case _ =>
      match m.mode.LastConfidentialBlock(m.inner, m.held, m.totalMessage)
      case None => (m, InvalidArgument)
      case Some(u) =>
        var t := m.(inner := u, held := [], state := AuthFooter);
        (Authenticated(t, input).(totalFooter := (m.totalFooter + |input|) % LWORD), NoError)
  }

  /** The two states in which `ProcessData` counts, authenticates and enciphers. */
  function Transformed(m: Machine, input: bytes): (r: (Machine, bytes))
    requires m.Shape() && m.mode.InStep(m.inner)
    ensures r.0.Shape() && |r.1| == |input|
  {
    var output := Crypt(m.mode, m.inner, m.pos, input);
    var t := Authenticated(m, if m.state.AuthUntransformed? then input else output);
    (t.(pos := m.pos + |input|, totalMessage := (m.totalMessage + |input|) % LWORD), output)
  }

  /** The header is closed and the message begins. */
  function Opened(m: Machine, inner: Inner): (t: Machine)
    requires m.Shape() && m.mode.InStep(inner)
    ensures t.Shape()
  {
    m.(inner := inner, held := [], state := if m.mode.OnPlaintext() == m.encrypting then AuthUntransformed else AuthTransformed)
  }

  /** `ProcessData`: the total is counted before the state is looked at. */
  function Processed(m: Machine, input: bytes): (r: (Machine, Error, bytes))
    requires m.Shape()
    ensures r.0.Shape()
  {
    if m.state.HasIV() && |input| > (m.mode.MaxMessageLength(m.inner) - m.totalMessage) % LWORD then (m, InvalidArgument, [])
    else
      var t := m.(totalMessage := (m.totalMessage + |input|) % LWORD);
      match m.state
      case Start => (t, BadState, [])
      case KeySet => (t, BadState, [])
      case AuthFooter => (t, BadState, [])
      case IVSet =>
        (match m.mode.LastHeaderBlock(m.inner, m.held, m.totalHeader)
         case None => (t, InvalidArgument, [])
         case Some(u) =>
           var (w, output) := Transformed(Opened(m, u), input);
           (w, NoError, output))
      case _ =>
        var (w, output) := Transformed(m, input);
        (w, NoError, output)
  }

  /** `TruncatedFinal`; a failed call leaves the state as it found it. */
  function Finished(m: Machine, size: nat): (r: (Machine, Error, bytes))
    requires m.Shape()
    ensures r.0.Shape()
  {
    if size > m.mode.DigestSize() || m.totalHeader > m.mode.MaxHeaderLength() || m.totalFooter > m.mode.MaxFooterLength() then
      (m, InvalidArgument, [])
    else if !m.state.HasIV() then (m, BadState, [])
    else
      var a := if m.state.IVSet? then m.mode.LastHeaderBlock(m.inner, m.held, m.totalHeader) else Some(m.inner);
      if a.None? then (m, InvalidArgument, [])
      else
        var heldA := if m.state.IVSet? then [] else m.held;
        var b := if m.state.AuthFooter? then a else m.mode.LastConfidentialBlock(a.value, heldA, m.totalMessage);
        if b.None? then (m.(inner := a.value, held := heldA), InvalidArgument, [])
        else
          (m.(inner := b.value, held := [], state := KeySet), NoError,
           m.mode.LastFooterBlock(b.value, m.totalHeader, m.totalMessage, size))
  }

  /**
   * What a run has been given since the IV: the fields and the held bytes when the header starts,
   * the header, and the message in both forms.
   */
  datatype History = History(base: Inner, prefix: bytes, header: bytes, plain: bytes, cipher: bytes) {
    /** The form of the message that is authenticated. */
    function Text(mode: Mode): bytes {
      if mode.OnPlaintext() then plain else cipher
    }
  }

  /** Before the message: everything given so far is authenticated or held. */
  ghost predicate TracksHeader(m: Machine, h: History) {
    && m.Shape() && m.mode.InStep(h.base)
    && var data := h.prefix + h.header;
    && m.inner == Front(m.mode, h.base, data) && m.held == Tail(m.mode, data)
    && h.plain == h.cipher == []
    && m.totalHeader == |h.header| % LWORD && m.totalMessage == 0 && m.totalFooter == 0 && m.pos == m.mode.StreamStart()
  }

  /** The header is closed, and the message's authenticated form is authenticated or held. */
  ghost predicate TextTracked(mode: Mode, inner: Inner, held: bytes, h: History)
    requires mode.InStep(h.base)
  {
    var middle := HeaderDone(mode, h.base, h.prefix + h.header, |h.header|);
    && middle.Some?
    && inner == Front(mode, middle.value, h.Text(mode)) && held == Tail(mode, h.Text(mode))
  }

  /** In the message: the header is closed, and the message so far is authenticated or held. */
  ghost predicate TracksMessage(m: Machine, h: History) {
    && m.Shape() && m.mode.InStep(h.base)
    && TextTracked(m.mode, m.inner, m.held, h)
    && |h.plain| == |h.cipher| && h.cipher == Crypt(m.mode, h.base, m.mode.StreamStart(), h.plain)
    && m.totalHeader == |h.header| % LWORD && m.totalMessage == |h.plain| % LWORD && m.totalFooter == 0
    && m.pos == m.mode.StreamStart() + |h.plain|
    && (m.state.AuthUntransformed? <==> m.mode.OnPlaintext() == m.encrypting)
  }

  ghost predicate Tracks(m: Machine, h: History) {
    if m.state.IVSet? then TracksHeader(m, h) else m.state.InMessage() && TracksMessage(m, h)
  }

  /** Front and tail of more data, from those of what was there. */
  lemma FrontMore(mode: Mode, s0: Inner, data: bytes, input: bytes)
    requires mode.InStep(s0)
    ensures var s, held := Front(mode, s0, data), Tail(mode, data);
      && Front(mode, s0, data + input) == Front(mode, s, held + input)
      && Tail(mode, data + input) == Tail(mode, held + input)
  {
    hide Mode.InStep, AuthenticateAll, Front, Tail, WholePart, Whole;
    var b := mode.BlockSize();
    var w := WholePart(|data|, b);
    var v := WholePart(|data[w..] + input|, b);
    FrontIs(mode, s0, data, w);
    FrontIs(mode, Front(mode, s0, data), data[w..] + input, v);
    Rejoined(data, w, input, v);
    WholePlus(w, v, b);
    FrontIs(mode, s0, data + input, w + v);
    AuthenticateConcat(mode, s0, data[..w], (data[w..] + input)[..v]);
  }

  lemma FrontIs(mode: Mode, s: Inner, data: bytes, w: nat)
    requires mode.InStep(s) && w <= |data| && Whole(w, mode.BlockSize()) && |data| - w < mode.BlockSize()
    ensures Front(mode, s, data) == AuthenticateAll(mode, s, data[..w]) && Tail(mode, data) == data[w..]
  {
    hide Mode.InStep, AuthenticateAll;
    WholePartUnique(|data|, mode.BlockSize(), w);
  }

  lemma Rejoined(data: bytes, w: nat, input: bytes, v: nat)
    requires w <= |data| && v <= |data| - w + |input|
    ensures (data + input)[..w + v] == data[..w] + (data[w..] + input)[..v]
    ensures (data + input)[w + v..] == (data[w..] + input)[v..]
  {
  }

  lemma FrontOfTail(mode: Mode, s0: Inner, data: bytes)
    requires mode.InStep(s0) && |data| < mode.BlockSize()
    ensures Front(mode, s0, data) == s0 && Tail(mode, data) == data
  {
  }

  lemma TotalsAdd(a: nat, b: nat)
    ensures (a % LWORD + b) % LWORD == (a + b) % LWORD
  {
    var q := a / LWORD;
    assert a == q * LWORD + a % LWORD;
    var c := a % LWORD + b;
    DivModUnique(a + b, LWORD, q + c / LWORD, c % LWORD);
  }

  /** The run starts: nothing given, and a length prefix, if any, held. */
  lemma StartTracks(m: Machine, prefix: bytes)
    requires m.Shape() && m.state.IVSet? && |prefix| < m.mode.BlockSize() && m.held == prefix
    requires m.totalHeader == m.totalMessage == m.totalFooter == 0 && m.pos == m.mode.StreamStart()
    ensures Tracks(m, History(m.inner, prefix, [], [], []))
  {
    assert prefix + [] == prefix;
    FrontOfTail(m.mode, m.inner, prefix);
  }

  /** Header data before the message is tracked as header. */
  lemma UpdateTracks(m: Machine, h: History, input: bytes)
    requires Tracks(m, h) && m.state.IVSet?
    ensures Updated(m, input).1 == NoError && Updated(m, input).0.state.IVSet?
    ensures Tracks(Updated(m, input).0, h.(header := h.header + input))
  {
    if input == [] {
      assert h.header + input == h.header;
    } else {
      hide Front, Tail, Mode.InStep, AuthenticateAll;
      FrontMore(m.mode, h.base, h.prefix + h.header, input);
      assert h.prefix + h.header + input == h.prefix + (h.header + input);
      TotalsAdd(|h.header|, |input|);
    }
  }

  /** Input and output of one call are plaintext and ciphertext, in the order of the direction. */
  lemma TransformCrypt(mode: Mode, base: Inner, inner: Inner, start: nat, plain: bytes, cipher: bytes, input: bytes)
    requires mode.InStep(base) && mode.InStep(inner) && inner == base.(mac := inner.mac)
    requires cipher == Crypt(mode, base, start, plain)
    ensures var output := Crypt(mode, inner, start + |plain|, input);
      && cipher + output == Crypt(mode, base, start, plain + input)
      && cipher + input == Crypt(mode, base, start, plain + output)
  {
    hide *;
    var pos := start + |plain|;
    var output := Crypt(mode, inner, pos, input);
    CryptSame(mode, base, inner, pos, input);
    CryptSame(mode, base, inner, pos, output);
    CryptInvolution(mode, inner, pos, input);
    CryptConcat(mode, base, start, plain, input);
    CryptConcat(mode, base, start, plain, output);
  }

  /** The history after a call with this input and output. */
  function Extended(h: History, encrypting: bool, input: bytes, output: bytes): History {
    if encrypting then h.(plain := h.plain + input, cipher := h.cipher + output)
    else h.(plain := h.plain + output, cipher := h.cipher + input)
  }

  /** In either direction, the authenticated form grows by what `Transformed` authenticates. */
  lemma ExtendedText(h: History, mode: Mode, encrypting: bool, untransformed: bool, input: bytes, output: bytes)
    requires untransformed <==> mode.OnPlaintext() == encrypting
    ensures Extended(h, encrypting, input, output).Text(mode) == h.Text(mode) + if untransformed then input else output
  {
  }

  /** Authenticating more of the message. */
  lemma TextMore(mode: Mode, inner: Inner, held: bytes, h: History, g: History, text: bytes)
    requires mode.InStep(h.base) && TextTracked(mode, inner, held, h)
    requires g.base == h.base && g.prefix == h.prefix && g.header == h.header && g.Text(mode) == h.Text(mode) + text
    ensures mode.InStep(inner) && inner == h.base.(mac := inner.mac)
    ensures TextTracked(mode, Front(mode, inner, held + text), Tail(mode, held + text), g)
  {
    var middle := HeaderDone(mode, h.base, h.prefix + h.header, |h.header|).value;
    hide HeaderDone, Front, Tail, Mode.InStep;
    FrontMore(mode, middle, h.Text(mode), text);
  }

  /** Enciphering and authenticating more of the message. */
  lemma TransformTracks(m: Machine, h: History, input: bytes)
    requires m.state.InMessage() && TracksMessage(m, h)
    ensures m.Shape() && m.mode.InStep(m.inner)
    ensures var (t, output) := Transformed(m, input);
      t.state == m.state && TracksMessage(t, Extended(h, m.encrypting, input, output))
  {
    hide TextTracked, Crypt, Front, Tail, Mode.InStep;
    assert h.Text(m.mode) + [] == h.Text(m.mode);
    TextMore(m.mode, m.inner, m.held, h, h, []);
    var output := Crypt(m.mode, m.inner, m.pos, input);
    var g := Extended(h, m.encrypting, input, output);
    TransformCrypt(m.mode, h.base, m.inner, m.mode.StreamStart(), h.plain, h.cipher, input);
    ExtendedText(h, m.mode, m.encrypting, m.state.AuthUntransformed?, input, output);
    TextMore(m.mode, m.inner, m.held, h, g, if m.state.AuthUntransformed? then input else output);
    TotalsAdd(|h.plain|, |input|);
  }

  /** Closing the header. */
  lemma CloseTracks(m: Machine, h: History, inner: Inner)
    requires TracksHeader(m, h) && m.mode.LastHeaderBlock(m.inner, m.held, m.totalHeader) == Some(inner)
    ensures m.mode.InStep(inner) && Opened(m, inner).state.InMessage() && TracksMessage(Opened(m, inner), h)
  {
    hide Front, Tail;
    FrontOfTail(m.mode, inner, []);
    assert Crypt(m.mode, h.base, m.mode.StreamStart(), []) == [];
  }

  /** Message data is tracked as message. */
  lemma ProcessTracks(m: Machine, h: History, input: bytes)
    requires Tracks(m, h) && Processed(m, input).1 == NoError
    ensures var (t, _, output) := Processed(m, input);
      t.state.InMessage() && Tracks(t, Extended(h, m.encrypting, input, output))
  {
    assert m.Shape() && m.mode.InStep(m.inner);
    hide Transformed, Mode.InStep, TracksHeader, TracksMessage;
    if m.state.IVSet? {
      var inner := m.mode.LastHeaderBlock(m.inner, m.held, m.totalHeader).value;
      CloseTracks(m, h, inner);
      TransformTracks(Opened(m, inner), h, input);
    } else {
      TransformTracks(m, h, input);
    }
  }

  /** In every tracked run the tag is the one-shot tag, and the machine is back to waiting for an IV. */
  lemma FinishIsOneShot(m: Machine, h: History, size: nat)
    requires Tracks(m, h) && size <= m.mode.DigestSize()
    ensures m.mode.Valid() && m.mode.InStep(h.base)
    ensures var (t, e, mac) := Finished(m, size);
      match OneShotTag(m.mode, h.base, h.prefix, h.header, h.Text(m.mode), size)
      case None => e == InvalidArgument
      case Some(tag) => e == NoError && mac == tag && t.state.KeySet?
  {
    hide Front, Tail, AuthenticateAll, Mode.LastFooterBlock, Mode.LastHeaderBlock, Mode.LastConfidentialBlock;
    if m.state.IVSet? {
      var a := m.mode.LastHeaderBlock(m.inner, m.held, m.totalHeader);
      if a.Some? {
        FrontOfTail(m.mode, a.value, []);
      }
    }
  }

  /** What a caller does between the IV and the tag. */
  datatype Call = Header(input: bytes) | Data(input: bytes)

  function Step(m: Machine, call: Call): (r: (Machine, Error, bytes))
    requires m.Shape()
    ensures r.0.Shape()
  {
    match call
    case Header(input) => var (u, f) := Updated(m, input); (u, f, [])
    case Data(input) => Processed(m, input)
  }

  /** The calls in order, up to the first that is refused; the output pieces joined. */
  function Run(m: Machine, calls: seq<Call>): (r: (Machine, Error, bytes))
    requires m.Shape()
    ensures r.0.Shape()
  {
    if calls == [] then (m, NoError, [])
    else
      var (t, e, out) := Run(m, calls[..|calls| - 1]);
      if e != NoError then (t, e, out)
      else var (u, f, more) := Step(t, calls[|calls| - 1]); (u, f, out + more)
  }

  /** All header data of a run, and all message data, each in one piece. */
  function Headers(calls: seq<Call>): bytes {
    if calls == [] then []
    else Headers(calls[..|calls| - 1]) + if calls[|calls| - 1].Header? then calls[|calls| - 1].input else []
  }

  function Datas(calls: seq<Call>): bytes {
    if calls == [] then []
    else Datas(calls[..|calls| - 1]) + if calls[|calls| - 1].Data? then calls[|calls| - 1].input else []
  }

  /** A machine that has just been given its IV, with at most a length prefix held. */
  predicate Fresh(m: Machine) {
    && m.Shape() && m.state.IVSet? && m.pos == m.mode.StreamStart()
    && m.totalHeader == m.totalMessage == m.totalFooter == 0
  }

  /** The history after a call. */
  function After(h: History, encrypting: bool, call: Call, output: bytes): History {
    match call
    case Header(input) => h.(header := h.header + input)
    case Data(input) => Extended(h, encrypting, input, output)
  }

  /** Any header data after the message begins the footer. */
  lemma FooterBegins(m: Machine, input: bytes)
    requires m.Shape() && m.state.InMessage() && Updated(m, input).1 == NoError
    ensures input == [] || Updated(m, input).0.state.AuthFooter?
  {
  }

  /** A call that is not refused keeps the run tracked, unless it begins the footer. */
  lemma StepTracks(m: Machine, h: History, call: Call)
    requires Tracks(m, h) && Step(m, call).1 == NoError && !Step(m, call).0.state.AuthFooter?
    ensures var (t, _, output) := Step(m, call); Tracks(t, After(h, m.encrypting, call, output))
  {
    assert m.Shape() && (m.state.IVSet? || m.state.InMessage());
    hide Transformed, Authenticated, TracksHeader, TracksMessage, Mode.InStep;
    match call
    case Header(input) =>
      if m.state.IVSet? {
        UpdateTracks(m, h, input);
      } else {
        FooterBegins(m, input);
        assert h.header + input == h.header;
      }
    case Data(input) =>
      ProcessTracks(m, h, input);
  }

  /** No call changes the mode or the direction, or leaves the footer. */
  lemma StepKeeps(m: Machine, call: Call)
    requires m.Shape()
    ensures var t := Step(m, call).0;
      && t.mode == m.mode && t.encrypting == m.encrypting
      && (m.state.AuthFooter? ==> t.state.AuthFooter?)
  {
  }

  /** What a run that gives out `output` has been given. */
  function HistoryOf(m: Machine, calls: seq<Call>, output: bytes): History {
    if m.encrypting then History(m.inner, m.held, Headers(calls), Datas(calls), output)
    else History(m.inner, m.held, Headers(calls), output, Datas(calls))
  }

  lemma HistoryGrows(m: Machine, calls: seq<Call>, out: bytes, more: bytes)
    requires calls != [] && (calls[|calls| - 1].Header? ==> more == [])
    ensures HistoryOf(m, calls, out + more)
         == After(HistoryOf(m, calls[..|calls| - 1], out), m.encrypting, calls[|calls| - 1], more)
  {
    if more == [] {
      assert out + more == out;
    }
  }

  /** Every run, however header and message are cut up, is tracked. */
  lemma {:induction false} RunTracks(m: Machine, calls: seq<Call>)
    requires Fresh(m)
    requires Run(m, calls).1 == NoError && !Run(m, calls).0.state.AuthFooter?
    ensures var (t, _, output) := Run(m, calls);
      Tracks(t, HistoryOf(m, calls, output)) && t.mode == m.mode && t.encrypting == m.encrypting
  {
    if calls == [] {
      StartTracks(m, m.held);
    } else {
      var before, last := calls[..|calls| - 1], calls[|calls| - 1];
      var (t, e, out) := Run(m, before);
      var (u, f, more) := Step(t, last);
      assert last.Header? ==> more == [];
      hide Step, Tracks, Machine.Shape, HistoryOf, After;
      StepKeeps(t, last);
      RunTracks(m, before);
      StepTracks(t, HistoryOf(m, before, out), last);
      HistoryGrows(m, calls, out, more);
    }
  }

  /** What the calls so far amount to: header data behind the first message data is footer data. */
  datatype Phase = InHeader | InMessage | InFooter

  function PhaseOf(calls: seq<Call>): Phase {
    if calls == [] then InHeader
    else
      var phase := PhaseOf(calls[..|calls| - 1]);
      match calls[|calls| - 1]
      case Header(input) => if phase.InMessage? && input != [] then InFooter else phase
      case Data(_) => if phase.InHeader? then InMessage else phase
  }

  /** All footer data of a run in one piece. */
  function Footers(calls: seq<Call>): bytes {
    if calls == [] then []
    else
      var before, last := calls[..|calls| - 1], calls[|calls| - 1];
      Footers(before) + if last.Header? && !PhaseOf(before).InHeader? then last.input else []
  }

  /** The count of footer data, as `lword`. */
  function Total(n: nat): nat {
    n % LWORD
  }

  /** The state of an object tells what the calls amount to, and the footer is counted. */
  ghost predicate InPhase(m: Machine, calls: seq<Call>) {
    && m.Shape()
    && (match PhaseOf(calls)
        case InHeader => m.state.IVSet?
        case InMessage => m.state.InMessage()
        case InFooter => m.state.AuthFooter?)
    && m.totalHeader < LWORD && m.totalFooter == Total(|Footers(calls)|)
  }

  lemma UpdatedPhase(m: Machine, input: bytes)
    requires m.Shape() && m.state.HasIV()
    ensures Updated(m, input).0.totalHeader < LWORD || Updated(m, input).0.totalHeader == m.totalHeader
    ensures var (t, e) := Updated(m, input);
      e == NoError ==>
        && t.state == (if input != [] && m.state.InMessage() then AuthFooter else m.state)
        && t.totalFooter == if m.state.IVSet? || input == [] then m.totalFooter else Total(m.totalFooter + |input|)
    ensures m.state.AuthFooter? ==> Updated(m, input).1 == NoError
  {
  }

  lemma ProcessedPhase(m: Machine, input: bytes)
    requires m.Shape() && m.state.HasIV()
    ensures var (t, e, _) := Processed(m, input);
      e == NoError ==> t.state.InMessage() && t.totalFooter == m.totalFooter && t.totalHeader == m.totalHeader
    ensures m.state.AuthFooter? ==> Processed(m, input).1 != NoError
  {
  }

  lemma StepInPhase(m: Machine, before: seq<Call>, last: Call)
    requires InPhase(m, before)
    ensures var (t, e, _) := Step(m, last); e == NoError ==> InPhase(t, before + [last])
    ensures PhaseOf(before).InFooter? ==> (Step(m, last).1 == NoError <==> last.Header?)
  {
    hide Machine.Shape, Updated, Processed, Footers, PhaseOf, Total;
    PhaseNext(before, last);
    FootersNext(before, last);
    match last
    case Header(input) => UpdatedPhase(m, input);
    case Data(input) => ProcessedPhase(m, input);
  }

  lemma PhaseNext(before: seq<Call>, last: Call)
    ensures var phase := PhaseOf(before);
      PhaseOf(before + [last]) ==
        if last.Data? then (if phase.InHeader? then InMessage else phase)
        else if phase.InMessage? && last.input != [] then InFooter else phase
  {
    assert (before + [last])[..|before|] == before;
  }

  lemma FootersNext(before: seq<Call>, last: Call)
    ensures last.Header? && !PhaseOf(before).InHeader? ==>
      Total(|Footers(before + [last])|) == Total(Total(|Footers(before)|) + |last.input|)
    ensures last.Data? || PhaseOf(before).InHeader? || last.input == [] ==> Footers(before + [last]) == Footers(before)
  {
    hide PhaseOf, Total, Footers;
    FootersOf(before, last);
    TotalMore(|Footers(before)|, |last.input|);
  }

  lemma FootersOf(before: seq<Call>, last: Call)
    ensures Footers(before + [last])
         == Footers(before) + if last.Header? && !PhaseOf(before).InHeader? then last.input else []
  {
    hide PhaseOf;
    assert (before + [last])[..|before|] == before;
  }

  lemma TotalMore(a: nat, b: nat)
    ensures Total(a + b) == Total(Total(a) + b)
  {
    TotalsAdd(a, b);
  }

  lemma {:induction false} RunInPhase(m: Machine, calls: seq<Call>)
    requires Fresh(m) && Run(m, calls).1 == NoError
    ensures InPhase(Run(m, calls).0, calls)
  {
    hide Step, InPhase;
    if calls == [] {
      FreshInPhase(m);
    } else {
      var before := calls[..|calls| - 1];
      assert calls == before + [calls[|calls| - 1]];
      RunInPhase(m, before);
      StepInPhase(Run(m, before).0, before, calls[|calls| - 1]);
    }
  }

  lemma FreshInPhase(m: Machine)
    requires Fresh(m)
    ensures InPhase(m, [])
  {
  }

  /** Once there is footer data, a run goes on exactly as long as no message data is given. */
  lemma {:induction false} FooterIsFinal(m: Machine, calls: seq<Call>, more: seq<Call>)
    requires Fresh(m) && Run(m, calls).1 == NoError && PhaseOf(calls).InFooter?
    ensures Run(m, calls + more).1 == NoError <==> forall call <- more :: call.Header?
    ensures PhaseOf(calls + more).InFooter?
    decreases |more|
  {
    if more == [] {
      assert calls + more == calls;
    } else {
      hide Step, InPhase, Fresh, Run, PhaseOf;
      var before, last := more[..|more| - 1], more[|more| - 1];
      FooterIsFinal(m, calls, before);
      AllBut(calls, more);
      StepInFooter(m, calls + before, last);
    }
  }

  lemma AllBut(calls: seq<Call>, more: seq<Call>)
    requires more != []
    ensures var before, last := more[..|more| - 1], more[|more| - 1];
      && calls + more == (calls + before) + [last]
      && ((forall call <- more :: call.Header?) <==> (forall call <- before :: call.Header?) && last.Header?)
  {
    assert more == more[..|more| - 1] + [more[|more| - 1]];
  }

  lemma StepInFooter(m: Machine, calls: seq<Call>, last: Call)
    requires Fresh(m) && PhaseOf(calls).InFooter?
    ensures Run(m, calls + [last]).1 == NoError <==> Run(m, calls).1 == NoError && last.Header?
    ensures PhaseOf(calls + [last]).InFooter?
  {
    hide Step, Machine.Shape;
    assert (calls + [last])[..|calls|] == calls;
    if Run(m, calls).1 == NoError {
      RunInPhase(m, calls);
      StepInPhase(Run(m, calls).0, calls, last);
    }
  }

  /** Behind footer data a tag is given only when its length comes out as 0: it is refused or wraps around. */
  lemma FooterTag(m: Machine, calls: seq<Call>, size: nat)
    requires Fresh(m) && Run(m, calls).1 == NoError && PhaseOf(calls).InFooter?
    ensures Finished(Run(m, calls).0, size).1 == NoError
       <==> size <= m.mode.DigestSize() && Total(|Footers(calls)|) == 0
  {
    RunInPhase(m, calls);
    RunKeeps(m, calls);
  }

  lemma {:induction false} RunKeeps(m: Machine, calls: seq<Call>)
    requires m.Shape()
    ensures Run(m, calls).0.mode == m.mode && Run(m, calls).0.encrypting == m.encrypting
  {
    hide Step;
    if calls != [] {
      RunKeeps(m, calls[..|calls| - 1]);
      StepKeeps(Run(m, calls[..|calls| - 1]).0, calls[|calls| - 1]);
    }
  }
}
