/** The reader and writer of 9P messages (virtio/9p-pdu.c) in place: two offsets that
    advance through scattered buffers while a format string is walked. */
module P9Pdu {
  import opened Iovec
  import opened P9Codec

  class Pdu {
    const inIov: seq<array<Byte>>
    const outIov: seq<array<Byte>>
    var readOffset: nat
    var writeOffset: nat

    constructor (ins: seq<array<Byte>>, outs: seq<array<Byte>>)
      ensures inIov == ins && outIov == outs && readOffset == 0 && writeOffset == 0
    {
      inIov, outIov, readOffset, writeOffset := ins, outs, 0, 0;
    }

    method PduRead(size: nat) returns (data: seq<Byte>)
      modifies `readOffset
      ensures data == Slice(Join(Contents(outIov)), old(readOffset), size)
      ensures readOffset == old(readOffset) + |data|
    {
      data := CopyFrom(outIov, readOffset, size);
      readOffset := readOffset + |data|;
    }

    method PduWrite(data: seq<Byte>)
      requires Separate(inIov)
      modifies this`writeOffset, set a | a in inIov
      ensures Join(Contents(inIov)) == Overlay(old(Join(Contents(inIov))), old(writeOffset), data)
      ensures writeOffset == old(writeOffset) + |Slice(old(Join(Contents(inIov))), old(writeOffset), |data|)|
    {
      var copied := CopyTo(inIov, writeOffset, data);
      writeOffset := writeOffset + copied;
    }

    /** Whenever the input holds the values the format asks for, they are what is read. */
    method ReadF(fmt: string) returns (ok: bool, vals: seq<Val>)
      modifies `readOffset
      ensures var d := DecodeAll(fmt, Join(Contents(outIov)), old(readOffset));
              d.Got? ==> ok && vals == d.value && readOffset == d.next
      decreases Levels(fmt), 1
    {
      hide Decode, DecodeAll, Contents, Join, Continues;
      ghost var s := Join(Contents(outIov));
      ghost var whole := DecodeAll(fmt, s, readOffset);
      ok, vals := true, [];
      ReadBegins(fmt, s, readOffset);
      for i := 0 to |fmt|
        invariant whole.Got? ==> ok && Continues(whole, vals, fmt, i, s, readOffset)
      {
        if whole.Got? { ReadContinues(whole, vals, fmt, i, s, readOffset); }
        var one, v := ReadOne(fmt, i);
        ok := ok && one;
        vals := vals + [v];
      }
      if whole.Got? { ReadFinishes(whole, vals, fmt, s, readOffset); }
    }

    /** One format character.  A length that is negative as a signed number is not modelled. */
    method ReadOne(fmt: string, i: nat) returns (ok: bool, v: Val)
      requires i < |fmt|
      modifies `readOffset
      ensures var d := Decode(fmt[i], Join(Contents(outIov)), old(readOffset));
              d.Got? ==> ok && v == d.value && readOffset == d.next
      decreases Levels(fmt), 0
    {
      hide Contents, Join, DecodeAll, Unlittle;
      var c := fmt[i];
      ok, v := true, Num(0);
      if Width(c) > 0 {
        var le := PduRead(Width(c));
        v := Num(Unlittle(le));
      } else if c == 's' {
        var le := PduRead(2);
        var bytes := PduRead(Unlittle(le));
        v := Str(bytes);
      } else if c == 'Q' || c == 'S' {
        var fields;
        ok, fields := ReadF(Nested(c));
        v := Rec(fields);
      } else {
        ok := false;
      }
    }

    /** The encoding of the values appears at the offset, as far as there is room for it. */
    method WriteF(fmt: string, vals: seq<Val>)
      requires SuitsAll(fmt, vals) && Separate(inIov)
      modifies this`writeOffset, set a | a in inIov
      ensures Join(Contents(inIov)) == Overlay(old(Join(Contents(inIov))), old(writeOffset), EncodeAll(fmt, vals))
      ensures writeOffset == After(old(Join(Contents(inIov))), old(writeOffset), EncodeAll(fmt, vals))
      decreases Levels(fmt), 1
    {
      hide Suits, Encode, Contents, Join, Overlay, Writing, After;
      ghost var s, start := Join(Contents(inIov)), writeOffset;
      WriteBegins(fmt, vals, s, start);
      for i := 0 to |fmt|
        invariant Writing(fmt, vals, i, s, start, Join(Contents(inIov)), writeOffset)
      {
        WriteContinues(fmt, vals, i, s, start, Join(Contents(inIov)), writeOffset);
        WriteOne(fmt, i, vals[i]);
      }
      WriteFinishes(fmt, vals, s, start, Join(Contents(inIov)), writeOffset);
    }

    method WriteOne(fmt: string, i: nat, v: Val)
      requires i < |fmt| && Suits(fmt[i], v) && Separate(inIov)
      modifies this`writeOffset, set a | a in inIov
      ensures Join(Contents(inIov)) == Overlay(old(Join(Contents(inIov))), old(writeOffset), Encode(fmt[i], v))
      ensures writeOffset == After(old(Join(Contents(inIov))), old(writeOffset), Encode(fmt[i], v))
      decreases Levels(fmt), 0
    {
      hide Contents, Join, Overlay, SuitsAll, EncodeAll, Little;
      var c := fmt[i];
      if Width(c) > 0 {
        PduWrite(Little(v.n, Width(c)));
      } else if c == 's' {
        ghost var s := Join(Contents(inIov));
        var len := Min(|v.bytes|, 0xffff);
        PduWrite(Little(len, 2));
        PduWrite(v.bytes[..len]);
        OverlayTwice(s, old(writeOffset), Little(len, 2), v.bytes[..len]);
      } else {
        WriteF(Nested(c), v.fields);
      }
    }
  }

  /** The offset behind what fitted of `e`, written at `at`. */
  function After(s: seq<Byte>, at: nat, e: seq<Byte>): nat { at + |Slice(s, at, |e|)| }

  // ------------------------------------------------------------------ the format walk

  /** What is left to decode completes what was decoded so far. */
  ghost predicate Continues(whole: Decoded<seq<Val>>, vals: seq<Val>, fmt: string, i: nat, s: seq<Byte>, at: nat) {
    && whole.Got? && i <= |fmt|
    && var rest := DecodeAll(fmt[i..], s, at);
       rest.Got? && whole.value == vals + rest.value && whole.next == rest.next
  }

  lemma ReadBegins(fmt: string, s: seq<Byte>, at: nat)
    ensures var whole := DecodeAll(fmt, s, at);
            whole.Got? ==> Continues(whole, [], fmt, 0, s, at)
  {
    assert fmt[0..] == fmt;
    var whole := DecodeAll(fmt, s, at);
    if whole.Got? { assert [] + whole.value == whole.value; }
  }

  lemma ReadContinues(whole: Decoded<seq<Val>>, vals: seq<Val>, fmt: string, i: nat, s: seq<Byte>, at: nat)
    requires Continues(whole, vals, fmt, i, s, at) && i < |fmt|
    ensures var d := Decode(fmt[i], s, at);
            d.Got? && Continues(whole, vals + [d.value], fmt, i + 1, s, d.next)
  {
    hide Decode;
    assert fmt[i..][0] == fmt[i] && fmt[i..][1..] == fmt[i + 1..];
    LevelsTail(fmt[i..]);
    var d := Decode(fmt[i], s, at);
    var rest := DecodeAll(fmt[i + 1..], s, d.next);
    assert vals + ([d.value] + rest.value) == vals + [d.value] + rest.value;
  }

  lemma ReadFinishes(whole: Decoded<seq<Val>>, vals: seq<Val>, fmt: string, s: seq<Byte>, at: nat)
    requires Continues(whole, vals, fmt, |fmt|, s, at)
    ensures whole == Got(vals, at)
  {
    assert fmt[|fmt|..] == "";
    assert vals + [] == vals;
  }

  /** Writing the rest now comes to what writing it all at once would have. */
  ghost predicate Writing(fmt: string, vals: seq<Val>, i: nat, s: seq<Byte>, start: nat, now: seq<Byte>, at: nat)
    requires SuitsAll(fmt, vals)
  {
    && i <= |fmt| && |vals| == |fmt| && SuitsAll(fmt[i..], vals[i..])
    && var rest := EncodeAll(fmt[i..], vals[i..]);
       && After(now, at, rest) == After(s, start, EncodeAll(fmt, vals))
       && Overlay(now, at, rest) == Overlay(s, start, EncodeAll(fmt, vals))
  }

  lemma {:induction false} SameLength(fmt: string, vals: seq<Val>)
    requires SuitsAll(fmt, vals)
    ensures |vals| == |fmt|
    decreases |fmt|
  {
    if fmt != "" { SameLength(fmt[1..], vals[1..]); }
  }

  lemma WriteBegins(fmt: string, vals: seq<Val>, s: seq<Byte>, start: nat)
    requires SuitsAll(fmt, vals)
    ensures Writing(fmt, vals, 0, s, start, s, start)
  {
    SameLength(fmt, vals);
    assert fmt[0..] == fmt && vals[0..] == vals;
  }

  /** Also when only part of it fits, and then nothing of what follows. */
  lemma OverlayTwice(s: seq<Byte>, at: nat, a: seq<Byte>, b: seq<Byte>)
    ensures var t := Overlay(s, at, a);
            && Overlay(t, After(s, at, a), b) == Overlay(s, at, a + b)
            && After(t, After(s, at, a), b) == After(s, at, a + b)
  { }

  /** One value written leaves the rest to write. */
  lemma WriteContinues(fmt: string, vals: seq<Val>, i: nat, s: seq<Byte>, start: nat, now: seq<Byte>, at: nat)
    requires SuitsAll(fmt, vals) && Writing(fmt, vals, i, s, start, now, at) && i < |fmt|
    ensures i < |vals| && Suits(fmt[i], vals[i])
    ensures var e := Encode(fmt[i], vals[i]);
            Writing(fmt, vals, i + 1, s, start, Overlay(now, at, e), After(now, at, e))
  {
    hide Suits, Encode, Overlay, After;
    assert fmt[i..][0] == fmt[i] && fmt[i..][1..] == fmt[i + 1..];
    assert vals[i..][0] == vals[i] && vals[i..][1..] == vals[i + 1..];
    LevelsTail(fmt[i..]);
    OverlayTwice(now, at, Encode(fmt[i], vals[i]), EncodeAll(fmt[i + 1..], vals[i + 1..]));
  }

  lemma WriteFinishes(fmt: string, vals: seq<Val>, s: seq<Byte>, start: nat, now: seq<Byte>, at: nat)
    requires SuitsAll(fmt, vals) && Writing(fmt, vals, |fmt|, s, start, now, at)
    ensures now == Overlay(s, start, EncodeAll(fmt, vals)) && at == After(s, start, EncodeAll(fmt, vals))
  {
    assert fmt[|fmt|..] == "" && vals[|fmt|..] == [];
    OverlayNothing(now, at);
  }
}
