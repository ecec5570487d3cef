/** The 9P wire format as virtio/9p-pdu.c encodes and decodes it, on values.  Numbers are
    their bit patterns; records are what the program flattens through a nested format. */
module P9Codec {
  import opened Iovec

  const QID := "bdq"
  const WSTAT := "wwdQdddqssss"
  const MAX_STRING := 32767

  datatype Val = Num(n: nat) | Str(bytes: seq<Byte>) | Rec(fields: seq<Val>)

  function Pow256(k: nat): (r: nat)
    ensures r > 0
  {
    if k == 0 then 1 else 0x100 * Pow256(k - 1)
  }

  /** Width in bytes of a number; 0 for anything else. */
  function Width(c: char): nat {
    if c == 'b' then 1 else if c == 'w' then 2 else if c == 'd' then 4 else if c == 'q' then 8 else 0
  }

  /** How deep the nested formats of a character go. */
  function Level(c: char): nat { if c == 'S' then 2 else if c == 'Q' then 1 else 0 }

  function Levels(fmt: string): (l: nat)
    ensures forall i :: 0 <= i < |fmt| ==> Level(fmt[i]) <= l
  {
    if fmt == "" then 0
    else
      var rest := Levels(fmt[1..]);
      if Level(fmt[0]) > rest then Level(fmt[0]) else rest
  }

  lemma LevelsTail(fmt: string)
    requires fmt != ""
    ensures Level(fmt[0]) <= Levels(fmt) && Levels(fmt[1..]) <= Levels(fmt)
  { }

  lemma NestedLevels()
    ensures Levels(QID) == 0 && Levels(WSTAT) == 1
  {
    assert forall i :: 0 <= i < |QID| ==> Level(QID[i]) == 0;
    LevelsBelow(QID, 0);
    LevelsBelow(WSTAT, 1);
    assert Level(WSTAT[3]) == 1;
  }

  lemma {:induction false} LevelsBelow(fmt: string, l: nat)
    requires forall i :: 0 <= i < |fmt| ==> Level(fmt[i]) <= l
    ensures Levels(fmt) <= l
  {
    if fmt != "" { LevelsBelow(fmt[1..], l); }
  }

  /** The nested format of a record character. */
  function Nested(c: char): (fmt: string)
    requires c == 'Q' || c == 'S'
    ensures Levels(fmt) < Level(c)
  {
    NestedLevels();
    if c == 'Q' then QID else WSTAT
  }

  /** The value suits the format character; strings are C strings, of any length. */
  predicate Suits(c: char, v: Val)
    decreases Level(c), 0
  {
    if Width(c) > 0 then v.Num? && v.n < Pow256(Width(c))
    else if c == 's' then v.Str? && forall b <- v.bytes :: b != 0
    else if c == 'Q' || c == 'S' then v.Rec? && SuitsAll(Nested(c), v.fields)
    else false
  }

  predicate SuitsAll(fmt: string, vals: seq<Val>)
    decreases Levels(fmt), |fmt| + 1
  {
    if fmt == "" then vals == []
    else LevelsTail(fmt); vals != [] && Suits(fmt[0], vals[0]) && SuitsAll(fmt[1..], vals[1..])
  }

  /** Every string in it has a length that a signed 16-bit number can hold. */
  predicate Short(c: char, v: Val)
    requires Suits(c, v)
    decreases Level(c), 0
  {
    if c == 's' then |v.bytes| <= MAX_STRING
    else if c == 'Q' || c == 'S' then ShortAll(Nested(c), v.fields)
    else true
  }

  predicate ShortAll(fmt: string, vals: seq<Val>)
    requires SuitsAll(fmt, vals)
    decreases Levels(fmt), |fmt| + 1
  {
    fmt == "" || (LevelsTail(fmt); Short(fmt[0], vals[0]) && ShortAll(fmt[1..], vals[1..]))
  }

  // ------------------------------------------------------------------------ encoding

  /** Least significant byte first. */
  function Little(n: nat, k: nat): (r: seq<Byte>)
    ensures |r| == k
  {
    if k == 0 then [] else [n % 0x100] + Little(n / 0x100, k - 1)
  }

  /** Strings are cut at 65535 bytes. */
  function EncodeString(bytes: seq<Byte>): seq<Byte> {
    Little(Min(|bytes|, 0xffff), 2) + bytes[..Min(|bytes|, 0xffff)]
  }

  function Encode(c: char, v: Val): seq<Byte>
    requires Suits(c, v)
    decreases Level(c), 0
  {
    if Width(c) > 0 then Little(v.n, Width(c))
    else if c == 's' then EncodeString(v.bytes)
    else EncodeAll(Nested(c), v.fields)
  }

  function EncodeAll(fmt: string, vals: seq<Val>): seq<Byte>
    requires SuitsAll(fmt, vals)
    decreases Levels(fmt), |fmt| + 1
  {
    if fmt == "" then []
    else LevelsTail(fmt); Encode(fmt[0], vals[0]) + EncodeAll(fmt[1..], vals[1..])
  }

  // ------------------------------------------------------------------------ decoding

  function Unlittle(s: seq<Byte>): nat {
    if s == [] then 0 else s[0] + 0x100 * Unlittle(s[1..])
  }

  /** A value and where the next one starts; NotThere where the program would read past its
      input or take a length for negative. */
  datatype Decoded<T> = NotThere | Got(value: T, next: nat)

  function DecodeNum(k: nat, s: seq<Byte>, at: nat): Decoded<nat> {
    if at + k <= |s| then Got(Unlittle(s[at..at + k]), at + k) else NotThere
  }

  function Decode(c: char, s: seq<Byte>, at: nat): Decoded<Val>
    decreases Level(c), 0
  {
    if Width(c) > 0 then
      match DecodeNum(Width(c), s, at)
      case NotThere => NotThere
      case Got(n, next) => Got(Num(n), next)
    else if c == 's' then
      match DecodeNum(2, s, at)
      case NotThere => NotThere
      case Got(len, next) =>
        if len > MAX_STRING || next + len > |s| then NotThere else Got(Str(s[next..next + len]), next + len)
    else if c == 'Q' || c == 'S' then
      match DecodeAll(Nested(c), s, at)
      case NotThere => NotThere
      case Got(fields, next) => Got(Rec(fields), next)
    else NotThere
  }

  function DecodeAll(fmt: string, s: seq<Byte>, at: nat): Decoded<seq<Val>>
    decreases Levels(fmt), |fmt| + 1
  {
    if fmt == "" then Got([], at)
    else
      LevelsTail(fmt);
      match Decode(fmt[0], s, at)
      case NotThere => NotThere
      case Got(v, next) =>
        match DecodeAll(fmt[1..], s, next)
        case NotThere => NotThere
        case Got(vals, end) => Got([v] + vals, end)
  }

  // ---------------------------------------------------------------------- round trip

  lemma {:induction false} LittleRound(n: nat, k: nat)
    requires n < Pow256(k)
    ensures Unlittle(Little(n, k)) == n
  {
    if k > 0 {
      LittleRound(n / 0x100, k - 1);
      assert Little(n, k)[1..] == Little(n / 0x100, k - 1);
    }
  }

  /** The bytes lie in s at `at`. */
  predicate Holds(s: seq<Byte>, at: nat, bytes: seq<Byte>) {
    at + |bytes| <= |s| && s[at..at + |bytes|] == bytes
  }

  lemma HoldsSplit(s: seq<Byte>, at: nat, a: seq<Byte>, b: seq<Byte>)
    requires Holds(s, at, a + b)
    ensures Holds(s, at, a) && Holds(s, at + |a|, b)
  {
    var whole := s[at..at + |a + b|];
    assert s[at..at + |a|] == whole[..|a|] == a;
    assert s[at + |a|..at + |a| + |b|] == whole[|a|..] == b;
  }

  lemma StringRounds(bytes: seq<Byte>, s: seq<Byte>, at: nat)
    requires Suits('s', Str(bytes)) && Holds(s, at, EncodeString(bytes))
    ensures Decode('s', s, at) ==
            if |bytes| <= MAX_STRING then Got(Str(bytes), at + |EncodeString(bytes)|) else NotThere
  {
    var n := Min(|bytes|, 0xffff);
    HoldsSplit(s, at, Little(n, 2), bytes[..n]);
    assert Pow256(2) == 0x100 * 0x100 * Pow256(0);
    LittleRound(n, 2);
    assert DecodeNum(2, s, at) == Got(n, at + 2);
    assert bytes[..|bytes|] == bytes;
  }

  lemma DecodeHeld(k: nat, e: seq<Byte>, s: seq<Byte>, at: nat)
    requires |e| == k && Holds(s, at, e)
    ensures DecodeNum(k, s, at) == Got(Unlittle(e), at + k)
  { }

  /** One value comes back if and only if every string in it is short enough. */
  lemma {:induction false} RoundOneExactly(c: char, v: Val, s: seq<Byte>, at: nat)
    requires Suits(c, v) && Holds(s, at, Encode(c, v))
    ensures Decode(c, s, at) == if Short(c, v) then Got(v, at + |Encode(c, v)|) else NotThere
    decreases Level(c), 0
  {
    hide EncodeString, DecodeNum, SuitsAll, ShortAll, EncodeAll, DecodeAll, Levels, Nested, Little, Unlittle, Pow256, Holds;
    if Width(c) > 0 {
      DecodeHeld(Width(c), Little(v.n, Width(c)), s, at);
      LittleRound(v.n, Width(c));
    } else if c == 's' {
      StringRounds(v.bytes, s, at);
    } else {
      RoundAllExactly(Nested(c), v.fields, s, at);
    }
  }

  lemma {:induction false} RoundAllExactly(fmt: string, vals: seq<Val>, s: seq<Byte>, at: nat)
    requires SuitsAll(fmt, vals) && Holds(s, at, EncodeAll(fmt, vals))
    ensures DecodeAll(fmt, s, at) ==
            if ShortAll(fmt, vals) then Got(vals, at + |EncodeAll(fmt, vals)|) else NotThere
    decreases Levels(fmt), |fmt| + 1
  {
    hide Suits, Encode, Decode, Holds, Level, Levels, Short;
    if fmt != "" {
      LevelsTail(fmt);
      HoldsSplit(s, at, Encode(fmt[0], vals[0]), EncodeAll(fmt[1..], vals[1..]));
      RoundOneExactly(fmt[0], vals[0], s, at);
      RoundAllExactly(fmt[1..], vals[1..], s, at + |Encode(fmt[0], vals[0])|);
      assert [vals[0]] + vals[1..] == vals;
    }
  }

  /** What was written into one set of pieces is read back from any other that carries the
      same bytes, and both offsets advance by the same amount, if and only if every string
      is short enough. */
  lemma AnyFragmentation(fmt: string, vals: seq<Val>, ins: seq<seq<Byte>>, wo: nat,
                         outs: seq<seq<Byte>>, ro: nat)
    requires SuitsAll(fmt, vals)
    requires var e := EncodeAll(fmt, vals);
             && wo + |e| <= |Join(ins)|
             && Holds(Join(outs), ro, Slice(Join(WritePieces(ins, wo, e)), wo, |e|))
    ensures DecodeAll(fmt, Join(outs), ro) == Got(vals, ro + |EncodeAll(fmt, vals)|) <==> ShortAll(fmt, vals)
  {
    var e := EncodeAll(fmt, vals);
    WriteIsOverlay(ins, wo, e);
    OverlaySlice(Join(ins), wo, e);
    RoundAllExactly(fmt, vals, Join(outs), ro);
  }

  lemma OverlaySlice(s: seq<Byte>, at: nat, e: seq<Byte>)
    requires at + |e| <= |s|
    ensures Slice(Overlay(s, at, e), at, |e|) == e
  { }
}
