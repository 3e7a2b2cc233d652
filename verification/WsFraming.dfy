/** WebSocket frames as sections 5.2 and 5.3 of RFC 6455 lay them out: the parser
    that reads one frame off a buffer, the wire form it inverts, and the printer
    of the server's own frames. */
module WsFraming {
  import opened Bytes

  const CONTINUATION: nat := 0x0
  const BINARY: nat := 0x2

  datatype WireFrame = WireFrame(fin: bool, op: nat, masked: bool, payload: Bytestring)

  // ---------------------------------------------------------------- one frame

  datatype Length = Short | Known(length: nat, size: nat)

  /** The 7-, 16- or 64-bit payload length, and the header size up to its end. */
  function LengthField(s: Bytestring): (r: Length)
    requires |s| >= 2
    ensures r.Known? ==> 2 <= r.size <= 10 && r.size <= |s|
  {
    var n := s[1] % 128;
    if n == 126 then (if |s| < 4 then Short else Known(BigEndian(s[2..4]), 4))
    else if n == 127 then (if |s| < 10 then Short else Known(BigEndian(s[2..10]), 10))
    else Known(n, 2)
  }

  datatype Parsed =
    | NeedMore
    | TooLarge
    | Complete(frame: WireFrame, size: nat)

  function ParseFrame(s: Bytestring, maxFrame: nat): (r: Parsed)
    ensures r.Complete? ==> 2 <= r.size <= |s| && |r.frame.payload| <= maxFrame
    ensures r.Complete? ==> |r.frame.payload| <= r.size
  {
    if |s| < 2 then NeedMore
    else match LengthField(s)
      case Short => NeedMore
      case Known(n, at) =>
        if n > maxFrame then TooLarge
        else if s[1] >= 128 then
          if |s| < at + 4 + n then NeedMore
          else
            Complete(WireFrame(s[0] >= 128, s[0] % 16, true, Masked(s[at + 4..at + 4 + n], s[at..at + 4])), at + 4 + n)
        else
          if |s| < at + n then NeedMore
          else Complete(WireFrame(s[0] >= 128, s[0] % 16, false, s[at..at + n]), at + n)
  }

  lemma LengthFieldStable(a: Bytestring, b: Bytestring)
    requires |a| >= 2
    ensures LengthField(a).Known? ==> LengthField(a + b) == LengthField(a)
  {
    if |a| >= 4 { SliceOfAppend(a, b, 2, 4); }
    if |a| >= 10 { SliceOfAppend(a, b, 2, 10); }
  }

  /** More input never changes the answer on a frame that was already decided. */
  lemma ParseFrameStable(a: Bytestring, b: Bytestring, maxFrame: nat)
    ensures !ParseFrame(a, maxFrame).NeedMore? ==> ParseFrame(a + b, maxFrame) == ParseFrame(a, maxFrame)
  {
    if !ParseFrame(a, maxFrame).NeedMore? {
      hide LengthField, Masked;
      LengthFieldStable(a, b);
      var Known(n, at) := LengthField(a);
      if n <= maxFrame {
        if a[1] >= 128 {
          SliceOfAppend(a, b, at, at + 4);
          SliceOfAppend(a, b, at + 4, at + 4 + n);
        } else {
          SliceOfAppend(a, b, at, at + n);
        }
      }
    }
  }

  // ---------------------------------------------------------------- wire form

  datatype Form = Seven | Sixteen | SixtyFour

  predicate Fits(form: Form, n: nat)
  {
    match form
    case Seven => n < 126
    case Sixteen => n < TWO_16
    case SixtyFour => n < TWO_64
  }

  /** Length octets; `bit` is 128 for a masked frame. RFC 6455 asks for the
      shortest form, the parser accepts any that fits. */
  function LengthBytes(form: Form, bit: nat, n: nat): (r: Bytestring)
    requires Fits(form, n) && (bit == 0 || bit == 128)
    ensures |r| == if form.Seven? then 1 else if form.Sixteen? then 3 else 9
  {
    match form
    case Seven => [bit + n]
    case Sixteen => [bit + 126] + ToBigEndian(n, 2)
    case SixtyFour => [bit + 127] + ToBigEndian(n, 8)
  }

  datatype Masking = Bare | Keyed(key: MaskKey)

  function Header(first: Byte, form: Form, m: Masking, n: nat): Bytestring
    requires Fits(form, n)
  {
    match m
    case Bare => [first] + LengthBytes(form, 0, n)
    case Keyed(key) => [first] + LengthBytes(form, 128, n) + key
  }

  function Body(m: Masking, payload: Bytestring): (r: Bytestring)
    ensures |r| == |payload|
  {
    match m
    case Bare => payload
    case Keyed(key) => Masked(payload, key)
  }

  /** A frame as section 5.2 of RFC 6455 lays it out. */
  function Wire(first: Byte, form: Form, m: Masking, payload: Bytestring): Bytestring
    requires Fits(form, |payload|)
  {
    Header(first, form, m, |payload|) + Body(m, payload)
  }

  lemma HeadLayout(a: Byte, b: Byte, c: Bytestring, tail: Bytestring)
    ensures var s := [a] + ([b] + c) + tail; s[0] == a && s[1] == b && s[2..2 + |c|] == c
  {
  }

  lemma LengthFieldOfBytes(first: Byte, form: Form, bit: nat, n: nat, tail: Bytestring)
    requires Fits(form, n) && (bit == 0 || bit == 128)
    ensures LengthField([first] + LengthBytes(form, bit, n) + tail) == Known(n, 1 + |LengthBytes(form, bit, n)|)
    ensures ([first] + LengthBytes(form, bit, n) + tail)[1] >= 128 <==> bit == 128
  {
    hide ToBigEndian, BigEndian, Pow256;
    Pow256Values();
    match form
    case Seven =>
    case Sixteen =>
      HeadLayout(first, bit + 126, ToBigEndian(n, 2), tail);
      BigEndianExact(n, 2);
    case SixtyFour =>
      HeadLayout(first, bit + 127, ToBigEndian(n, 8), tail);
      BigEndianExact(n, 8);
  }

  lemma Layout(a: Bytestring, b: Bytestring, c: Bytestring, tail: Bytestring)
    ensures var s := a + b + c + tail;
            && s == a + (b + c + tail)
            && s[|a|..|a| + |b|] == b
            && s[|a| + |b|..|a| + |b| + |c|] == c
  {
  }

  /** The parser on a frame given as header part, key and body, without
      reference to how the header was printed. */
  lemma ParseKeyed(pre: Bytestring, key: MaskKey, body: Bytestring, tail: Bytestring, maxFrame: nat)
    requires |pre| >= 2 && pre[1] >= 128 && |body| <= maxFrame
    requires LengthField(pre + (key + body + tail)) == Known(|body|, |pre|)
    ensures ParseFrame(pre + key + body + tail, maxFrame)
         == Complete(WireFrame(pre[0] >= 128, pre[0] % 16, true, Masked(body, key)), |pre| + 4 + |body|)
  {
    Layout(pre, key, body, tail);
  }

  lemma ParseBare(pre: Bytestring, body: Bytestring, tail: Bytestring, maxFrame: nat)
    requires |pre| >= 2 && pre[1] < 128 && |body| <= maxFrame
    requires LengthField(pre + (body + tail)) == Known(|body|, |pre|)
    ensures ParseFrame(pre + body + tail, maxFrame)
         == Complete(WireFrame(pre[0] >= 128, pre[0] % 16, false, body), |pre| + |body|)
  {
    assert pre + (body + tail) == pre + body + tail;
    assert (pre + body + tail)[|pre|..|pre| + |body|] == body;
  }

  /** The parser inverts the wire form, whatever follows the frame. */
  lemma ParseWire(first: Byte, form: Form, m: Masking, payload: Bytestring, tail: Bytestring, maxFrame: nat)
    requires Fits(form, |payload|) && |payload| <= maxFrame
    ensures ParseFrame(Wire(first, form, m, payload) + tail, maxFrame)
         == Complete(WireFrame(first >= 128, first % 16, m.Keyed?, payload), |Wire(first, form, m, payload)|)
  {
    var n := |payload|;
    match m
    case Bare =>
      var pre := [first] + LengthBytes(form, 0, n);
      LengthFieldOfBytes(first, form, 0, n, payload + tail);
      ParseBare(pre, payload, tail, maxFrame);
    case Keyed(key) =>
      var pre, body := [first] + LengthBytes(form, 128, n), Masked(payload, key);
      LengthFieldOfBytes(first, form, 128, n, key + body + tail);
      ParseKeyed(pre, key, body, tail, maxFrame);
      MaskedInvolution(payload, key);
  }

  /** A frame whose announced length is above the limit is refused as soon as its
      length is there. */
  lemma OversizeRefused(first: Byte, form: Form, bit: nat, n: nat, tail: Bytestring, maxFrame: nat)
    requires Fits(form, n) && (bit == 0 || bit == 128) && n > maxFrame
    ensures ParseFrame([first] + LengthBytes(form, bit, n) + tail, maxFrame) == TooLarge
  {
    LengthFieldOfBytes(first, form, bit, n, tail);
  }

  lemma OversizeWire(first: Byte, form: Form, m: Masking, payload: Bytestring, tail: Bytestring, maxFrame: nat)
    requires Fits(form, |payload|) && |payload| > maxFrame
    ensures ParseFrame(Wire(first, form, m, payload) + tail, maxFrame) == TooLarge
  {
    hide ParseFrame, LengthBytes;
    var bit, n := if m.Keyed? then 128 else 0, |payload|;
    var pre := [first] + LengthBytes(form, bit, n);
    var rest := (if m.Keyed? then m.key else []) + Body(m, payload) + tail;
    assert Wire(first, form, m, payload) + tail == pre + rest;
    OversizeRefused(first, form, bit, n, rest, maxFrame);
  }

  lemma PrefixNeedsMore(w: Bytestring, k: nat, maxFrame: nat)
    requires ParseFrame(w, maxFrame).Complete? && ParseFrame(w, maxFrame).size == |w| && k < |w|
    ensures ParseFrame(w[..k], maxFrame) == NeedMore
  {
    hide ParseFrame;
    assert w[..k] + w[k..] == w;
    ParseFrameStable(w[..k], w[k..], maxFrame);
    ParsedFits(w[..k], maxFrame);
  }

  lemma ParsedFits(s: Bytestring, maxFrame: nat)
    ensures ParseFrame(s, maxFrame).Complete? ==> ParseFrame(s, maxFrame).size <= |s|
  {
  }

  /** Every strict prefix of a legal frame asks for more input, without an error. */
  lemma StrictPrefixNeedsMore(first: Byte, form: Form, m: Masking, payload: Bytestring, k: nat, maxFrame: nat)
    requires Fits(form, |payload|) && |payload| <= maxFrame
    requires k < |Wire(first, form, m, payload)|
    ensures ParseFrame(Wire(first, form, m, payload)[..k], maxFrame) == NeedMore
  {
    hide ParseFrame, Wire;
    var w := Wire(first, form, m, payload);
    assert w + [] == w;
    ParseWire(first, form, m, payload, [], maxFrame);
    PrefixNeedsMore(w, k, maxFrame);
  }

  lemma LengthBytesOfField(s: Bytestring) returns (form: Form)
    requires |s| >= 2 && LengthField(s).Known?
    ensures var Known(n, at) := LengthField(s);
            var bit := if s[1] >= 128 then 128 else 0;
            Fits(form, n) && s[..at] == [s[0]] + LengthBytes(form, bit, n)
  {
    var Known(n, at) := LengthField(s);
    Pow256Values();
    if s[1] % 128 == 126 {
      form := Sixteen;
      BigEndianBound(s[2..4]);
      BigEndianInverse(s[2..4]);
    } else if s[1] % 128 == 127 {
      form := SixtyFour;
      BigEndianBound(s[2..10]);
      BigEndianInverse(s[2..10]);
    } else {
      form := Seven;
    }
  }

  /** Conversely, whatever the parser accepts is the wire form of the frame it reports. */
  lemma WireOfParsed(s: Bytestring, maxFrame: nat) returns (form: Form, m: Masking)
    requires ParseFrame(s, maxFrame).Complete?
    ensures var Complete(f, size) := ParseFrame(s, maxFrame);
            && m.Keyed? == f.masked
            && Fits(form, |f.payload|)
            && s[..size] == Wire(s[0], form, m, f.payload)
  {
    var Complete(f, size) := ParseFrame(s, maxFrame);
    hide LengthField, LengthBytes, Masked, Fits;
    var Known(n, at) := LengthField(s);
    form := LengthBytesOfField(s);
    if f.masked {
      assert size == at + 4 + n;
      var key: MaskKey := s[at..at + 4];
      m := Keyed(key);
      MaskedInvolution(s[at + 4..size], key);
      CutInThree(s, at, at + 4, size);
    } else {
      assert size == at + n;
      m := Bare;
      CutInThree(s, at, at, size);
    }
  }

  lemma CutInThree(s: Bytestring, a: nat, b: nat, c: nat)
    requires a <= b <= c <= |s|
    ensures s[..c] == s[..a] + s[a..b] + s[b..c]
    ensures s[..a] + s[a..a] == s[..a]
  {
  }

  /** The server's own frames: unmasked, shortest length form. */
  function EncodeWSFrame(opCode: Byte, payload: Bytestring): (r: Bytestring)
  {
    var n := |payload|;
    if n < 126 then [opCode, n] + payload
    else if n <= 65535 then [opCode, 126, n / 256, n % 256] + payload
    else [opCode, 127] + ToBigEndian(n, 8) + payload
  }

  lemma EncodeIsWire(opCode: Byte, payload: Bytestring) returns (form: Form)
    requires |payload| < TWO_64
    ensures Fits(form, |payload|) && EncodeWSFrame(opCode, payload) == Wire(opCode, form, Bare, payload)
  {
    hide ToBigEndian;
    var n := |payload|;
    form := if n < 126 then Seven else if n <= 65535 then Sixteen else SixtyFour;
    if form.Sixteen? {
      TwoBytes(n);
    }
  }

  lemma TwoBytes(n: nat)
    requires n < TWO_16
    ensures ToBigEndian(n, 2) == [n / 256, n % 256]
  {
    assert ToBigEndian(n, 2) == ToBigEndian(n / 256, 1) + [n % 256];
    assert ToBigEndian(n / 256, 1) == ToBigEndian(n / 256 / 256, 0) + [n / 256 % 256];
  }

  /** Parsing what the server encoded gives the payload back, for every opcode
      byte, length form and trailing bytes. */
  lemma ParseEncoded(opCode: Byte, payload: Bytestring, tail: Bytestring, maxFrame: nat)
    requires |payload| < TWO_64 && |payload| <= maxFrame
    ensures ParseFrame(EncodeWSFrame(opCode, payload) + tail, maxFrame)
         == Complete(WireFrame(opCode >= 128, opCode % 16, false, payload), |EncodeWSFrame(opCode, payload)|)
  {
    var form := EncodeIsWire(opCode, payload);
    ParseWire(opCode, form, Bare, payload, tail, maxFrame);
  }
}
