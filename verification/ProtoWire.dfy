/** The client message envelope on the Protocol Buffers wire: field 1 (cmd, an
    int32 varint), field 2 (seq, an int64 varint), field 99 (body, bytes), and
    any other field, which a reader skips. The printer omits default values. */
module ProtoWire {
  import opened Bytes

  const MAX_FIELD: nat := 0x7FFF_FFFF
  const RECURSION_LIMIT: int := 10000

  // ---------------------------------------------------------------- varints

  function EncodeVarint(v: nat): (r: Bytestring)
    ensures |r| > 0
  {
    if v < 128 then [v] else [v % 128 + 128] + EncodeVarint(v / 128)
  }

  datatype Varint = BadVarint | Got(value: nat, size: nat)

  /** Base 128, least significant group first, in at most `left` bytes. Of the
      tenth byte only the lowest bit may be set. */
  function DecodeVarint(s: Bytestring, left: nat): (r: Varint)
    requires left > 0
    ensures r.Got? ==> 0 < r.size <= |s|
  {
    if s == [] then BadVarint
    else if left == 1 then (if s[0] < 2 then Got(s[0], 1) else BadVarint)
    else if s[0] < 128 then Got(s[0], 1)
    else
      match DecodeVarint(s[1..], left - 1)
      case BadVarint => BadVarint
      case Got(v, n) => Got(s[0] - 128 + 128 * v, n + 1)
  }

  function ConsumeVarint(s: Bytestring): (r: Varint)
    ensures r.Got? ==> 0 < r.size <= |s|
  {
    DecodeVarint(s, 10)
  }

  function VarintBound(left: nat): nat
    requires left > 0
  {
    if left == 1 then 2 else 128 * VarintBound(left - 1)
  }

  lemma VarintBound10()
    ensures VarintBound(10) == TWO_64
  {
    assert VarintBound(4) == 2 * 128 * 128 * 128;
    assert VarintBound(7) == 128 * 128 * 128 * VarintBound(4);
  }

  lemma {:induction false} VarintRoundTrip(v: nat, left: nat, tail: Bytestring)
    requires left > 0 && v < VarintBound(left)
    ensures DecodeVarint(EncodeVarint(v) + tail, left) == Got(v, |EncodeVarint(v)|)
    decreases left
  {
    var s := EncodeVarint(v) + tail;
    if v >= 128 {
      assert s[1..] == EncodeVarint(v / 128) + tail;
      VarintRoundTrip(v / 128, left - 1, tail);
    }
  }

  /** Every 64-bit value survives, whatever follows it. */
  lemma ConsumeEncodedVarint(v: nat, tail: Bytestring)
    requires v < TWO_64
    ensures ConsumeVarint(EncodeVarint(v) + tail) == Got(v, |EncodeVarint(v)|)
  {
    VarintBound10();
    VarintRoundTrip(v, 10, tail);
  }

  lemma {:induction false} VarintBoundAtLeast(left: nat)
    requires left > 0
    ensures VarintBound(left) >= if left == 1 then 2 else 256
  {
    if left > 1 {
      VarintBoundAtLeast(left - 1);
    }
  }

  /** The first byte without continuation bit is the n-th. */
  ghost predicate EndsAt(s: Bytestring, n: nat)
  {
    0 < n <= |s| && s[n - 1] < 128 && forall j :: 0 <= j < n - 1 ==> s[j] >= 128
  }

  lemma {:induction false} VarintAccepted(s: Bytestring, left: nat)
    requires left > 0
    ensures var r := DecodeVarint(s, left);
            && (r.Got? ==> EndsAt(s, r.size) && r.size <= left && r.value < VarintBound(left))
            && (r.BadVarint? ==> forall n: nat :: EndsAt(s, n) ==> n > left || (n == left && s[n - 1] >= 2))
    decreases left
  {
    VarintBoundAtLeast(left);
    if s != [] && left > 1 && s[0] >= 128 {
      VarintAccepted(s[1..], left - 1);
      var r := DecodeVarint(s[1..], left - 1);
      if r.Got? {
        assert forall j :: 0 < j < r.size ==> s[j] == s[1..][j - 1];
      } else {
        forall n: nat | EndsAt(s, n) ensures n > left || (n == left && s[n - 1] >= 2) {
          assert EndsAt(s[1..], n - 1);
        }
      }
    }
  }

  /** A varint is refused exactly when it does not end within ten bytes or its tenth
      byte overflows 64 bits. */
  lemma VarintExactly(s: Bytestring)
    ensures ConsumeVarint(s).Got? <==> exists n: nat :: EndsAt(s, n) && n <= 10 && (n == 10 ==> s[9] < 2)
    ensures ConsumeVarint(s).Got? ==> ConsumeVarint(s).value < TWO_64 && EndsAt(s, ConsumeVarint(s).size)
  {
    VarintBound10();
    VarintAccepted(s, 10);
    var r := DecodeVarint(s, 10);
    if r.Got? && r.size == 10 {
      TenthByte(s, 10);
    }
  }

  lemma {:induction false} TenthByte(s: Bytestring, left: nat)
    requires left > 0 && DecodeVarint(s, left).Got? && DecodeVarint(s, left).size == left
    ensures left <= |s| && s[left - 1] < 2
    decreases left
  {
    if left > 1 {
      TenthByte(s[1..], left - 1);
    }
  }

  // ---------------------------------------------------------------- tags and values

  const VARINT: nat := 0
  const FIXED64: nat := 1
  const BYTES: nat := 2
  const START_GROUP: nat := 3
  const END_GROUP: nat := 4
  const FIXED32: nat := 5

  datatype Tag = BadTag | Tag(num: nat, typ: nat, size: nat)

  function ConsumeTag(s: Bytestring): (r: Tag)
    ensures r.Tag? ==> 0 < r.size <= |s|
  {
    match ConsumeVarint(s)
    case BadVarint => BadTag
    case Got(v, n) => if v / 8 < 1 || v / 8 > MAX_FIELD then BadTag else Tag(v / 8, v % 8, n)
  }

  datatype Size = BadValue | Size(n: nat)

  function ConsumeBytes(s: Bytestring): (r: Size)
    ensures r.Size? ==> r.n <= |s|
  {
    match ConsumeVarint(s)
    case BadVarint => BadValue
    case Got(len, n) => if |s| - n < len then BadValue else Size(n + len)
  }

  /** The size of a field's value, groups included; nesting is limited by `depth`. */
  function ConsumeFieldValue(num: nat, typ: nat, s: Bytestring, depth: int): (r: Size)
    ensures r.Size? ==> r.n <= |s|
    decreases |s|, 1
  {
    if typ == VARINT then
      match ConsumeVarint(s)
      case BadVarint => BadValue
      case Got(_, n) => Size(n)
    else if typ == FIXED32 then (if |s| < 4 then BadValue else Size(4))
    else if typ == FIXED64 then (if |s| < 8 then BadValue else Size(8))
    else if typ == BYTES then ConsumeBytes(s)
    else if typ == START_GROUP then (if depth < 0 then BadValue else ConsumeGroup(num, s, depth))
    else BadValue
  }

  function ConsumeGroup(num: nat, s: Bytestring, depth: int): (r: Size)
    ensures r.Size? ==> r.n <= |s|
    decreases |s|, 0
  {
    match ConsumeTag(s)
    case BadTag => BadValue
    case Tag(num2, typ2, n) =>
      if typ2 == END_GROUP then (if num2 == num then Size(n) else BadValue)
      else
        match ConsumeFieldValue(num2, typ2, s[n..], depth - 1)
        case BadValue => BadValue
        case Size(m) =>
          match ConsumeGroup(num, s[n + m..], depth)
          case BadValue => BadValue
          case Size(k) => Size(n + m + k)
  }

  // ---------------------------------------------------------------- printing fields

  datatype Field =
    | VarintF(num: nat, v: nat)
    | Fixed64F(num: nat, raw: Bytestring)
    | BytesF(num: nat, data: Bytestring)
    | GroupF(num: nat, fields: seq<Field>)
    | Fixed32F(num: nat, raw: Bytestring)

  function TypeOf(f: Field): nat
  {
    match f
    case VarintF(_, _) => VARINT
    case Fixed64F(_, _) => FIXED64
    case BytesF(_, _) => BYTES
    case GroupF(_, _) => START_GROUP
    case Fixed32F(_, _) => FIXED32
  }

  function EncodeTag(num: nat, typ: nat): (r: Bytestring)
    ensures |r| > 0
  {
    EncodeVarint(num * 8 + typ)
  }

  function EncodeValue(f: Field): Bytestring
    decreases f, 1
  {
    match f
    case VarintF(_, n) => EncodeVarint(n)
    case Fixed64F(_, raw) => raw
    case BytesF(_, data) => EncodeVarint(|data|) + data
    case GroupF(num, fields) => EncodeFields(fields) + EncodeTag(num, END_GROUP)
    case Fixed32F(_, raw) => raw
  }

  function EncodeFields(fs: seq<Field>): Bytestring
    decreases fs, 0
  {
    if fs == [] then []
    else EncodeTag(fs[0].num, TypeOf(fs[0])) + EncodeValue(fs[0]) + EncodeFields(fs[1..])
  }

  predicate GoodNum(num: nat)
  {
    1 <= num <= MAX_FIELD
  }

  predicate GoodField(f: Field)
    decreases f, 1
  {
    GoodNum(f.num) &&
    match f
    case VarintF(_, n) => n < TWO_64
    case Fixed64F(_, raw) => |raw| == 8
    case BytesF(_, data) => |data| < TWO_64
    case GroupF(_, fields) => GoodFields(fields)
    case Fixed32F(_, raw) => |raw| == 4
  }

  predicate GoodFields(fs: seq<Field>)
    decreases fs, 0
  {
    fs == [] || (GoodField(fs[0]) && GoodFields(fs[1..]))
  }

  /** Nesting depth of groups. */
  function Nesting(f: Field): nat
    decreases f, 1
  {
    if f.GroupF? then 1 + NestingAll(f.fields) else 0
  }

  function NestingAll(fs: seq<Field>): nat
    decreases fs, 0
  {
    if fs == [] then 0 else
      var a, b := Nesting(fs[0]), NestingAll(fs[1..]);
      if a > b then a else b
  }

  lemma ConsumeEncodedTag(num: nat, typ: nat, tail: Bytestring)
    requires GoodNum(num) && typ < 8
    ensures ConsumeTag(EncodeTag(num, typ) + tail) == Tag(num, typ, |EncodeTag(num, typ)|)
  {
    hide DecodeVarint, EncodeVarint;
    ConsumeEncodedVarint(num * 8 + typ, tail);
  }

  lemma ConsumeEncodedBytes(data: Bytestring, tail: Bytestring)
    requires |data| < TWO_64
    ensures var e := EncodeVarint(|data|) + data;
            ConsumeBytes(e + tail) == Size(|e|)
  {
    hide DecodeVarint, EncodeVarint;
    ConsumeEncodedVarint(|data|, data + tail);
    assert EncodeVarint(|data|) + data + tail == EncodeVarint(|data|) + (data + tail);
  }

  /** A printed value is skipped in full exactly when its groups are not nested
      too deeply. */
  lemma {:induction false} ConsumeEncodedValue(f: Field, tail: Bytestring, depth: int)
    requires GoodField(f) && depth >= -1
    ensures ConsumeFieldValue(f.num, TypeOf(f), EncodeValue(f) + tail, depth)
         == if Nesting(f) <= depth + 1 then Size(|EncodeValue(f)|) else BadValue
    decreases f, 1
  {
    hide EncodeVarint, ConsumeVarint, ConsumeBytes, ConsumeGroup;
    match f
    case VarintF(_, n) => ConsumeEncodedVarint(n, tail);
    case Fixed64F(_, raw) =>
    case BytesF(_, data) => ConsumeEncodedBytes(data, tail);
    case GroupF(num, fields) =>
      if depth >= 0 {
        ConsumeEncodedGroup(num, fields, tail, depth);
      }
    case Fixed32F(_, raw) =>
  }

  lemma {:induction false} ConsumeEncodedGroup(num: nat, fs: seq<Field>, tail: Bytestring, depth: int)
    requires GoodNum(num) && GoodFields(fs) && depth >= 0
    ensures var e := EncodeFields(fs) + EncodeTag(num, END_GROUP);
            ConsumeGroup(num, e + tail, depth) == if NestingAll(fs) <= depth then Size(|e|) else BadValue
    decreases fs, 0
  {
    hide EncodeTag, EncodeValue, ConsumeTag, ConsumeFieldValue, Nesting, TypeOf;
    var close := EncodeTag(num, END_GROUP);
    if fs == [] {
      ConsumeEncodedTag(num, END_GROUP, tail);
      assert EncodeFields(fs) + close + tail == close + tail;
    } else {
      var f := fs[0];
      TypeOfKinds(f);
      var tag, val := EncodeTag(f.num, TypeOf(f)), EncodeValue(f);
      var rest := EncodeFields(fs[1..]) + close + tail;
      GroupLayout(tag, val, EncodeFields(fs[1..]), close, tail);
      ConsumeEncodedTag(f.num, TypeOf(f), val + rest);
      ConsumeEncodedValue(f, rest, depth - 1);
      ConsumeEncodedGroup(num, fs[1..], tail, depth);
    }
  }

  lemma TypeOfKinds(f: Field)
    ensures TypeOf(f) < 8 && TypeOf(f) != END_GROUP
  {
  }

  lemma GroupLayout(tag: Bytestring, val: Bytestring, more: Bytestring, close: Bytestring, tail: Bytestring)
    ensures var s, rest := tag + val + more + close + tail, more + close + tail;
            s == tag + (val + rest) && s[|tag|..] == val + rest && s[|tag| + |val|..] == rest
  {
  }

  // ---------------------------------------------------------------- extraction

  /** int32(v) and int64(v) of an unsigned 64-bit value. */
  function ToInt32(v: nat): int
  {
    var low := v % TWO_32;
    if low < 0x8000_0000 then low else low - TWO_32
  }

  function ToInt64(v: nat): int
  {
    var low := v % TWO_64;
    if low < 0x8000_0000_0000_0000 then low else low - TWO_64
  }

  datatype Extracted = Malformed | Parsed(cmd: int, seqId: int, body: Bytestring)

  /** The fields of a message, continuing from values already read; a repeated
      field overrides the earlier one. */
  function Extract(s: Bytestring, cmd: int, seqId: int, body: Bytestring): Extracted
    decreases |s|
  {
    if s == [] then Parsed(cmd, seqId, body)
    else
      match ConsumeTag(s)
      case BadTag => Malformed
      case Tag(num, typ, n) =>
        var rest := s[n..];
        if num == 1 || num == 2 then
          if typ != VARINT then Malformed
          else
            match ConsumeVarint(rest)
            case BadVarint => Malformed
            case Got(v, m) =>
              if num == 1 then Extract(rest[m..], ToInt32(v), seqId, body)
              else Extract(rest[m..], cmd, ToInt64(v), body)
        else if num == 99 then
          if typ != BYTES then Malformed
          else
            match ConsumeBytes(rest)
            case BadValue => Malformed
            case Size(m) => Extract(rest[m..], cmd, seqId, rest[ConsumeVarint(rest).size..m])
        else
          match ConsumeFieldValue(num, typ, rest, RECURSION_LIMIT)
          case BadValue => Malformed
          case Size(m) => Extract(rest[m..], cmd, seqId, body)
  }

  method ExtractMessageFrame(input: Bytestring) returns (cmd: int, seqId: int, body: Bytestring, ok: bool)
    ensures var e := Extract(input, 0, 0, []);
            if e.Malformed? then !ok && cmd == 0 && seqId == 0 && body == []
            else cmd == e.cmd && seqId == e.seqId && body == e.body && ok == (e.cmd != 0)
  {
    hide ConsumeTag, ConsumeVarint, ConsumeBytes, ConsumeFieldValue, ToInt32, ToInt64;
    cmd, seqId, body := 0, 0, [];
    var data := input;
    while |data| > 0
      invariant Extract(data, cmd, seqId, body) == Extract(input, 0, 0, [])
      decreases |data|
    {
      var tag := ConsumeTag(data);
      if tag.BadTag? {
        return 0, 0, [], false;
      }
      data := data[tag.size..];
      if tag.num == 1 || tag.num == 2 {
        if tag.typ != VARINT {
          return 0, 0, [], false;
        }
        var v := ConsumeVarint(data);
        if v.BadVarint? {
          return 0, 0, [], false;
        }
        if tag.num == 1 {
          cmd := ToInt32(v.value);
        } else {
          seqId := ToInt64(v.value);
        }
        data := data[v.size..];
      } else if tag.num == 99 {
        if tag.typ != BYTES {
          return 0, 0, [], false;
        }
        var m := ConsumeBytes(data);
        if m.BadValue? {
          return 0, 0, [], false;
        }
        BytesStart(data);
        body := data[ConsumeVarint(data).size..m.n];
        data := data[m.n..];
      } else {
        var m := ConsumeFieldValue(tag.num, tag.typ, data, RECURSION_LIMIT);
        if m.BadValue? {
          return 0, 0, [], false;
        }
        data := data[m.n..];
      }
    }
    ok := cmd != 0;
  }

  /** What a reader of client messages accepts: a message needs a command. */
  function Decode(s: Bytestring): Extracted
  {
    var e := Extract(s, 0, 0, []);
    if e.Parsed? && e.cmd != 0 then e else Malformed
  }

  method DecodeClientMessage(input: Bytestring) returns (msg: Extracted)
    ensures msg == Decode(input)
  {
    hide Extract;
    var cmd, seqId, body, ok := ExtractMessageFrame(input);
    msg := if ok then Parsed(cmd, seqId, body) else Malformed;
  }

  lemma BytesStart(s: Bytestring)
    requires ConsumeBytes(s).Size?
    ensures ConsumeVarint(s).Got? && ConsumeVarint(s).size <= ConsumeBytes(s).n
  {
  }

  // ---------------------------------------------------------------- round trips

  /** One top-level field of an envelope. */
  datatype Entry =
    | Cmd(v: nat)
    | Seq(v: nat)
    | Body(data: Bytestring)
    | Other(field: Field)

  predicate GoodEntry(e: Entry)
  {
    match e
    case Cmd(v) => v < TWO_64
    case Seq(v) => v < TWO_64
    case Body(data) => |data| < TWO_64
    case Other(f) => GoodField(f) && f.num != 1 && f.num != 2 && f.num != 99
  }

  function AsField(e: Entry): Field
  {
    match e
    case Cmd(v) => VarintF(1, v)
    case Seq(v) => VarintF(2, v)
    case Body(data) => BytesF(99, data)
    case Other(f) => f
  }

  function EncodeEntry(e: Entry): (r: Bytestring)
    ensures |r| > 0
  {
    var f := AsField(e);
    EncodeTag(f.num, TypeOf(f)) + EncodeValue(f)
  }

  function EncodeEntries(es: seq<Entry>): Bytestring
  {
    if es == [] then [] else EncodeEntry(es[0]) + EncodeEntries(es[1..])
  }

  /** The meaning of an envelope: the last of each known field; unknown fields count for nothing. */
  function Meaning(es: seq<Entry>, cmd: int, seqId: int, body: Bytestring): Extracted
    decreases |es|
  {
    if es == [] then Parsed(cmd, seqId, body)
    else
      match es[0]
      case Cmd(v) => Meaning(es[1..], ToInt32(v), seqId, body)
      case Seq(v) => Meaning(es[1..], cmd, ToInt64(v), body)
      case Body(data) => Meaning(es[1..], cmd, seqId, data)
      case Other(_) => Meaning(es[1..], cmd, seqId, body)
  }

  predicate Shallow(e: Entry)
  {
    e.Other? ==> Nesting(e.field) <= RECURSION_LIMIT + 1
  }

  lemma GoodNumOf(e: Entry)
    requires GoodEntry(e)
    ensures GoodNum(AsField(e).num) && GoodField(AsField(e))
  {
  }

  /** Reading on after one field; a field nested too deeply is fatal. */
  function ReadOn(e: Entry, rest: Bytestring, cmd: int, seqId: int, body: Bytestring): Extracted
  {
    if !Shallow(e) then Malformed
    else
      match e
      case Cmd(v) => Extract(rest, ToInt32(v), seqId, body)
      case Seq(v) => Extract(rest, cmd, ToInt64(v), body)
      case Body(data) => Extract(rest, cmd, seqId, data)
      case Other(_) => Extract(rest, cmd, seqId, body)
  }

  lemma TwoParts(a: Bytestring, b: Bytestring, c: Bytestring)
    ensures var s := a + b + c;
            && s == a + (b + c) && s[|a|..] == b + c && (b + c)[|b|..] == c
            && s[|a|..|a| + |b|] == b
  {
  }

  lemma ExtractEntry(e: Entry, rest: Bytestring, cmd: int, seqId: int, body: Bytestring)
    requires GoodEntry(e)
    ensures Extract(EncodeEntry(e) + rest, cmd, seqId, body) == ReadOn(e, rest, cmd, seqId, body)
  {
    hide EncodeVarint, ConsumeVarint, ConsumeBytes, EncodeTag, ConsumeTag, ConsumeFieldValue, ToInt32, ToInt64, Nesting, GoodField;
    var f := AsField(e);
    var tag, val := EncodeTag(f.num, TypeOf(f)), EncodeValue(f);
    TwoParts(tag, val, rest);
    GoodNumOf(e);
    ConsumeEncodedTag(f.num, TypeOf(f), val + rest);
    match e
    case Cmd(v) => ConsumeEncodedVarint(v, rest);
    case Seq(v) => ConsumeEncodedVarint(v, rest);
    case Body(data) => ReadBody(data, rest);
    case Other(_) =>
      ConsumeEncodedValue(f, rest, RECURSION_LIMIT);
  }

  lemma ReadBody(data: Bytestring, rest: Bytestring)
    requires |data| < TWO_64
    ensures var val := EncodeVarint(|data|) + data;
            && ConsumeBytes(val + rest) == Size(|val|)
            && ConsumeVarint(val + rest).Got? && ConsumeVarint(val + rest).size <= |val|
            && (val + rest)[ConsumeVarint(val + rest).size..|val|] == data
  {
    hide EncodeVarint, ConsumeVarint, ConsumeBytes;
    ConsumeEncodedBytes(data, rest);
    ConsumeEncodedVarint(|data|, data + rest);
    TwoParts(EncodeVarint(|data|), data, rest);
  }

  /** For every list of well-formed fields in any order, the extracted values are
      the meaning of the list if no unknown group is nested more than 10001 deep,
      and the message is refused otherwise. */
  lemma {:induction false} ExtractEncoded(es: seq<Entry>, cmd: int, seqId: int, body: Bytestring)
    requires forall k :: 0 <= k < |es| ==> GoodEntry(es[k])
    ensures Extract(EncodeEntries(es), cmd, seqId, body)
         == if forall k :: 0 <= k < |es| ==> Shallow(es[k]) then Meaning(es, cmd, seqId, body) else Malformed
    decreases |es|
  {
    hide EncodeEntry, ToInt32, ToInt64, Shallow, GoodEntry;
    if es != [] {
      var rest := EncodeEntries(es[1..]);
      ExtractEntry(es[0], rest, cmd, seqId, body);
      match es[0]
      case Cmd(v) => ExtractEncoded(es[1..], ToInt32(v), seqId, body);
      case Seq(v) => ExtractEncoded(es[1..], cmd, ToInt64(v), body);
      case Body(data) => ExtractEncoded(es[1..], cmd, seqId, data);
      case Other(_) => ExtractEncoded(es[1..], cmd, seqId, body);
      assert forall k :: 0 <= k < |es[1..]| ==> es[1..][k] == es[k + 1];
    }
  }

  // ---------------------------------------------------------------- what is refused

  lemma {:induction false} VarintStable(a: Bytestring, b: Bytestring, left: nat)
    requires left > 0
    ensures DecodeVarint(a, left).Got? ==> DecodeVarint(a + b, left) == DecodeVarint(a, left)
    decreases left
  {
    if a != [] && left > 1 {
      VarintStable(a[1..], b, left - 1);
      assert (a + b)[1..] == a[1..] + b;
    }
  }

  lemma TagStable(a: Bytestring, b: Bytestring)
    ensures ConsumeTag(a).Tag? ==> ConsumeTag(a + b) == ConsumeTag(a)
  {
    hide DecodeVarint;
    VarintStable(a, b, 10);
  }

  lemma BytesStable(a: Bytestring, b: Bytestring)
    ensures ConsumeBytes(a).Size? ==> ConsumeBytes(a + b) == ConsumeBytes(a)
  {
    hide DecodeVarint;
    VarintStable(a, b, 10);
  }

  /** More input never changes the size of a value that is all there. */
  lemma {:induction false} ValueStable(num: nat, typ: nat, a: Bytestring, b: Bytestring, depth: int)
    ensures ConsumeFieldValue(num, typ, a, depth).Size? ==>
              ConsumeFieldValue(num, typ, a + b, depth) == ConsumeFieldValue(num, typ, a, depth)
    decreases |a|, 1
  {
    hide DecodeVarint, ConsumeGroup, ConsumeBytes;
    VarintStable(a, b, 10);
    BytesStable(a, b);
    if typ == START_GROUP && depth >= 0 {
      GroupStable(num, a, b, depth);
    }
  }

  lemma {:induction false} GroupStable(num: nat, a: Bytestring, b: Bytestring, depth: int)
    ensures ConsumeGroup(num, a, depth).Size? ==> ConsumeGroup(num, a + b, depth) == ConsumeGroup(num, a, depth)
    decreases |a|, 0
  {
    hide ConsumeTag, ConsumeFieldValue;
    TagStable(a, b);
    var tag := ConsumeTag(a);
    if tag.Tag? && tag.typ != END_GROUP {
      var n := tag.size;
      assert (a + b)[n..] == a[n..] + b;
      ValueStable(tag.num, tag.typ, a[n..], b, depth - 1);
      var v := ConsumeFieldValue(tag.num, tag.typ, a[n..], depth - 1);
      if v.Size? {
        assert (a + b)[n + v.n..] == a[n + v.n..] + b;
        GroupStable(num, a[n + v.n..], b, depth);
      }
    }
  }

  lemma TagCut(num: nat, typ: nat, tail: Bytestring, k: nat)
    requires GoodNum(num) && typ < 8 && k < |EncodeTag(num, typ)|
    ensures ConsumeTag((EncodeTag(num, typ) + tail)[..k]) == BadTag
  {
    hide ConsumeTag, EncodeTag;
    var w := EncodeTag(num, typ) + tail;
    assert w[..k] + w[k..] == w;
    TagStable(w[..k], w[k..]);
    ConsumeEncodedTag(num, typ, tail);
    TagFits(w[..k]);
  }

  lemma TagFits(s: Bytestring)
    ensures ConsumeTag(s).Tag? ==> ConsumeTag(s).size <= |s|
  {
  }

  /** A value that is cut off is not accepted. */
  lemma ValueCut(f: Field, k: nat)
    requires GoodField(f) && k < |EncodeValue(f)|
    ensures ConsumeFieldValue(f.num, TypeOf(f), EncodeValue(f)[..k], RECURSION_LIMIT) == BadValue
  {
    hide ConsumeFieldValue, EncodeValue, TypeOf, GoodField, Nesting;
    var w := EncodeValue(f);
    assert w[..k] + w[k..] == w && w + [] == w;
    ValueStable(f.num, TypeOf(f), w[..k], w[k..], RECURSION_LIMIT);
    ConsumeEncodedValue(f, [], RECURSION_LIMIT);
    ValueFits(f.num, TypeOf(f), w[..k], RECURSION_LIMIT);
  }

  lemma ValueFits(num: nat, typ: nat, s: Bytestring, depth: int)
    ensures ConsumeFieldValue(num, typ, s, depth).Size? ==> ConsumeFieldValue(num, typ, s, depth).n <= |s|
  {
  }

  /** A field that is cut off anywhere makes the message malformed. */
  lemma FieldCut(e: Entry, k: nat, cmd: int, seqId: int, body: Bytestring)
    requires GoodEntry(e) && 0 < k < |EncodeEntry(e)|
    ensures Extract(EncodeEntry(e)[..k], cmd, seqId, body) == Malformed
  {
    hide ConsumeTag, ConsumeFieldValue, EncodeTag, EncodeValue, ToInt32, ToInt64, GoodField, DecodeVarint;
    var f := AsField(e);
    var tag, val := EncodeTag(f.num, TypeOf(f)), EncodeValue(f);
    var s := EncodeEntry(e)[..k];
    GoodNumOf(e);
    assert EncodeEntry(e) == tag + val;
    if k < |tag| {
      TagCut(f.num, TypeOf(f), val, k);
    } else {
      var j := k - |tag|;
      assert s == tag + val[..j] && s[|tag|..] == val[..j];
      ConsumeEncodedTag(f.num, TypeOf(f), val[..j]);
      ValueCut(f, j);
      ByType(f.num, TypeOf(f), val[..j]);
    }
  }

  lemma ByType(num: nat, typ: nat, s: Bytestring)
    requires ConsumeFieldValue(num, typ, s, RECURSION_LIMIT) == BadValue
    ensures typ == VARINT ==> ConsumeVarint(s) == BadVarint
    ensures typ == BYTES ==> ConsumeBytes(s) == BadValue
  {
  }

  /** Types that no field may have, or not this field. */
  predicate WrongType(num: nat, typ: nat)
  {
    || typ in {END_GROUP, 6, 7}
    || ((num == 1 || num == 2) && typ != VARINT)
    || (num == 99 && typ != BYTES)
  }

  lemma TypeRefused(num: nat, typ: nat, tail: Bytestring, cmd: int, seqId: int, body: Bytestring)
    requires GoodNum(num) && typ < 8 && WrongType(num, typ)
    ensures Extract(EncodeTag(num, typ) + tail, cmd, seqId, body) == Malformed
  {
    hide ConsumeTag, EncodeTag, ConsumeGroup;
    ConsumeEncodedTag(num, typ, tail);
  }

  /** Field numbers out of range. */
  lemma NumberRefused(v: nat, tail: Bytestring, cmd: int, seqId: int, body: Bytestring)
    requires v < TWO_64 && !GoodNum(v / 8)
    ensures Extract(EncodeVarint(v) + tail, cmd, seqId, body) == Malformed
  {
    hide EncodeVarint, DecodeVarint;
    ConsumeEncodedVarint(v, tail);
  }

  /** A group closed under another number is not accepted. */
  lemma {:induction false} MismatchedEnd(num: nat, other: nat, fs: seq<Field>, tail: Bytestring, depth: int)
    requires GoodNum(num) && GoodNum(other) && num != other && GoodFields(fs) && depth >= 0
    ensures ConsumeGroup(num, EncodeFields(fs) + EncodeTag(other, END_GROUP) + tail, depth) == BadValue
    decreases fs
  {
    hide EncodeTag, EncodeValue, ConsumeTag, ConsumeFieldValue, Nesting, TypeOf;
    var close := EncodeTag(other, END_GROUP);
    if fs == [] {
      ConsumeEncodedTag(other, END_GROUP, tail);
      assert EncodeFields(fs) + close + tail == close + tail;
    } else {
      var f := fs[0];
      TypeOfKinds(f);
      var tag, val := EncodeTag(f.num, TypeOf(f)), EncodeValue(f);
      var rest := EncodeFields(fs[1..]) + close + tail;
      GroupLayout(tag, val, EncodeFields(fs[1..]), close, tail);
      ConsumeEncodedTag(f.num, TypeOf(f), val + rest);
      ConsumeEncodedValue(f, rest, depth - 1);
      MismatchedEnd(num, other, fs[1..], tail, depth);
    }
  }

  /** An unknown field that is a group closed under another number. */
  ghost predicate Mismatched(bad: Bytestring, num: nat, other: nat, fs: seq<Field>, tail: Bytestring)
  {
    && GoodNum(num) && GoodNum(other) && num != other && num != 1 && num != 2 && num != 99 && GoodFields(fs)
    && bad == EncodeTag(num, START_GROUP) + (EncodeFields(fs) + EncodeTag(other, END_GROUP) + tail)
  }

  lemma MismatchRefused(bad: Bytestring, num: nat, other: nat, fs: seq<Field>, tail: Bytestring, cmd: int, seqId: int, body: Bytestring)
    requires Mismatched(bad, num, other, fs, tail)
    ensures Extract(bad, cmd, seqId, body) == Malformed
  {
    hide ConsumeTag, EncodeTag, ConsumeGroup, EncodeFields;
    var group := EncodeFields(fs) + EncodeTag(other, END_GROUP) + tail;
    ConsumeEncodedTag(num, START_GROUP, group);
    assert bad[|EncodeTag(num, START_GROUP)|..] == group;
    MismatchedEnd(num, other, fs, tail, RECURSION_LIMIT);
  }

  /** How a message can go wrong after good fields: one that is cut off, one of a
      wrong type, one with a number out of range, or a group closed under another
      number. */
  ghost predicate BadTail(bad: Bytestring)
  {
    || (exists e, k: nat :: GoodEntry(e) && 0 < k < |EncodeEntry(e)| && bad == EncodeEntry(e)[..k])
    || (exists num: nat, typ: nat, tail :: GoodNum(num) && typ < 8 && WrongType(num, typ) && bad == EncodeTag(num, typ) + tail)
    || (exists v: nat, tail :: v < TWO_64 && !GoodNum(v / 8) && bad == EncodeVarint(v) + tail)
    || (exists num: nat, other: nat, fs, tail :: Mismatched(bad, num, other, fs, tail))
  }

  lemma BadTailRefused(bad: Bytestring, cmd: int, seqId: int, body: Bytestring)
    requires BadTail(bad)
    ensures Extract(bad, cmd, seqId, body) == Malformed
  {
    hide Extract, EncodeEntry, EncodeTag, EncodeVarint, GoodEntry, Mismatched;
    if e, k: nat :| GoodEntry(e) && 0 < k < |EncodeEntry(e)| && bad == EncodeEntry(e)[..k] {
      FieldCut(e, k, cmd, seqId, body);
    } else if num: nat, typ: nat, tail :| GoodNum(num) && typ < 8 && WrongType(num, typ) && bad == EncodeTag(num, typ) + tail {
      TypeRefused(num, typ, tail, cmd, seqId, body);
    } else if v: nat, tail :| v < TWO_64 && !GoodNum(v / 8) && bad == EncodeVarint(v) + tail {
      NumberRefused(v, tail, cmd, seqId, body);
    } else {
      var num: nat, other: nat, fs, tail :| Mismatched(bad, num, other, fs, tail);
      MismatchRefused(bad, num, other, fs, tail, cmd, seqId, body);
    }
  }

  /** A message that goes wrong anywhere is refused as a whole. */
  lemma {:induction false} WrongMessageRefused(es: seq<Entry>, bad: Bytestring, cmd: int, seqId: int, body: Bytestring)
    requires BadTail(bad) && forall k :: 0 <= k < |es| ==> GoodEntry(es[k])
    ensures Extract(EncodeEntries(es) + bad, cmd, seqId, body) == Malformed
    decreases |es|
  {
    hide Extract, EncodeEntry, ToInt32, ToInt64, GoodEntry, Shallow, BadTail;
    if es == [] {
      assert EncodeEntries(es) + bad == bad;
      BadTailRefused(bad, cmd, seqId, body);
    } else {
      var rest := EncodeEntries(es[1..]) + bad;
      assert EncodeEntries(es) + bad == EncodeEntry(es[0]) + rest;
      ExtractEntry(es[0], rest, cmd, seqId, body);
      match es[0]
      case Cmd(v) => WrongMessageRefused(es[1..], bad, ToInt32(v), seqId, body);
      case Seq(v) => WrongMessageRefused(es[1..], bad, cmd, ToInt64(v), body);
      case Body(data) => WrongMessageRefused(es[1..], bad, cmd, seqId, data);
      case Other(_) => WrongMessageRefused(es[1..], bad, cmd, seqId, body);
    }
  }

  predicate IsKnown(e: Entry)
  {
    !e.Other?
  }

  function Known(es: seq<Entry>): seq<Entry>
  {
    if es == [] then []
    else if IsKnown(es[0]) then [es[0]] + Known(es[1..]) else Known(es[1..])
  }

  lemma {:induction false} MeaningOfKnown(es: seq<Entry>, cmd: int, seqId: int, body: Bytestring)
    ensures Meaning(Known(es), cmd, seqId, body) == Meaning(es, cmd, seqId, body)
    decreases |es|
  {
    if es != [] {
      hide ToInt32, ToInt64;
      var rest := es[1..];
      assert IsKnown(es[0]) ==> Known(es)[1..] == Known(rest);
      match es[0]
      case Cmd(v) => MeaningOfKnown(rest, ToInt32(v), seqId, body);
      case Seq(v) => MeaningOfKnown(rest, cmd, ToInt64(v), body);
      case Body(data) => MeaningOfKnown(rest, cmd, seqId, data);
      case Other(_) => MeaningOfKnown(rest, cmd, seqId, body);
    }
  }

  predicate IsInt32(c: int)
  {
    -0x8000_0000 <= c < 0x8000_0000
  }

  predicate IsInt64(q: int)
  {
    -0x8000_0000_0000_0000 <= q < 0x8000_0000_0000_0000
  }

  /** Negative numbers are sign-extended to 64 bits before they are printed. */
  function Unsigned(x: int): nat
    requires IsInt64(x)
  {
    if x < 0 then x + TWO_64 else x
  }

  function Envelope(cmd: int, seqId: int, body: Bytestring): seq<Entry>
    requires IsInt32(cmd) && IsInt64(seqId)
  {
    (if cmd != 0 then [Cmd(Unsigned(cmd))] else [])
    + (if seqId != 0 then [Seq(Unsigned(seqId))] else [])
    + (if body != [] then [Body(body)] else [])
  }

  function MarshalClientMessage(cmd: int, seqId: int, body: Bytestring): Bytestring
    requires IsInt32(cmd) && IsInt64(seqId)
  {
    EncodeEntries(Envelope(cmd, seqId, body))
  }

  lemma Signed(x: int)
    requires IsInt64(x)
    ensures Unsigned(x) < TWO_64 && ToInt64(Unsigned(x)) == x
    ensures IsInt32(x) ==> ToInt32(Unsigned(x)) == x
  {
  }

  /** The printer's output with any well-formed unknown fields inserted anywhere
      is read back as exactly cmd, seq and body, negative numbers included. */
  lemma ClientMessageRoundTrip(cmd: int, seqId: int, body: Bytestring, es: seq<Entry>)
    requires IsInt32(cmd) && IsInt64(seqId) && |body| < TWO_64
    requires forall k :: 0 <= k < |es| ==> GoodEntry(es[k]) && Shallow(es[k])
    requires Known(es) == Envelope(cmd, seqId, body)
    ensures Extract(EncodeEntries(es), 0, 0, []) == Parsed(cmd, seqId, body)
  {
    ExtractEncoded(es, 0, 0, []);
    MeaningOfKnown(es, 0, 0, []);
    MeaningOfEnvelope(cmd, seqId, body);
  }

  lemma MeaningOfEnvelope(cmd: int, seqId: int, body: Bytestring)
    requires IsInt32(cmd) && IsInt64(seqId)
    ensures Meaning(Envelope(cmd, seqId, body), 0, 0, []) == Parsed(cmd, seqId, body)
  {
    hide ToInt32, ToInt64, Unsigned;
    Signed(cmd);
    Signed(seqId);
    var b := if body != [] then [Body(body)] else [];
    var q := if seqId != 0 then [Seq(Unsigned(seqId))] else [];
    assert Meaning(b, cmd, seqId, []) == Parsed(cmd, seqId, body);
    assert seqId != 0 ==> (q + b)[1..] == b;
    assert seqId == 0 ==> q + b == b;
    assert Meaning(q + b, cmd, 0, []) == Parsed(cmd, seqId, body);
    var all := Envelope(cmd, seqId, body);
    assert cmd != 0 ==> all[1..] == q + b;
    assert cmd == 0 ==> all == q + b;
  }

  /** Decoding a marshalled message succeeds exactly when its command is nonzero. */
  lemma MarshalThenExtract(cmd: int, seqId: int, body: Bytestring)
    requires IsInt32(cmd) && IsInt64(seqId) && |body| < TWO_64
    ensures Extract(MarshalClientMessage(cmd, seqId, body), 0, 0, []) == Parsed(cmd, seqId, body)
    ensures Decode(MarshalClientMessage(cmd, seqId, body)) == if cmd != 0 then Parsed(cmd, seqId, body) else Malformed
  {
    hide Extract;
    var es := Envelope(cmd, seqId, body);
    Signed(cmd);
    Signed(seqId);
    KnownOfEnvelope(es);
    ClientMessageRoundTrip(cmd, seqId, body, es);
  }

  lemma {:induction false} KnownOfEnvelope(es: seq<Entry>)
    requires forall k :: 0 <= k < |es| ==> IsKnown(es[k])
    ensures Known(es) == es
  {
    if es != [] {
      KnownOfEnvelope(es[1..]);
    }
  }
}
