/** Bit lists such as "0-1023:2/256" (bitmap_parselist of util/bitmap.c): the text is cut
    into regions, each region is checked and its groups of bits are set. */
module BitmapParse {
  import opened Arith
  import opened Bitmap

  const TWO_31 := 0x8000_0000
  const TWO_32 := 0x1_0000_0000
  const TWO_63 := 0x8000_0000_0000_0000

  datatype Error = EINVAL | ERANGE | EOVERFLOW

  datatype Region = Region(start: nat, off: nat, groupLen: nat, end: nat)

  /** A parsed value and the text after it. */
  datatype Parsed<T> = Fail(error: Error) | Done(value: T, rest: string)

  /** The first character, '\0' at the end of the text. */
  function Head(s: string): char { if s == "" then '\0' else s[0] }

  predicate IsSpace(c: char) { c == ' ' || 9 <= c as int <= 13 }

  predicate Separator(c: char) { IsSpace(c) || c == ',' }

  predicate EndOfStr(c: char) { c == '\0' || c == '\n' }

  predicate EndOfRegion(c: char) { Separator(c) || EndOfStr(c) }

  function SkipSeparators(s: string): (r: string)
    ensures |r| <= |s| && !Separator(Head(r))
  {
    if Separator(Head(s)) then SkipSeparators(s[1..]) else s
  }

  /** The start of the next region, or nothing. */
  method FindRegion(s: string) returns (found: bool, r: string)
    ensures r == SkipSeparators(s) && found == !EndOfStr(Head(r))
  {
    r := s;
    while Separator(Head(r))
      invariant SkipSeparators(r) == SkipSeparators(s)
      decreases |r|
    {
      r := r[1..];
    }
    found := !EndOfStr(Head(r));
  }

  // ----------------------------------------------------------------------- numbers

  predicate IsDigit(c: char) { '0' <= c <= '9' }

  function SkipSpace(s: string): (r: string)
    ensures |r| <= |s|
  {
    if s != "" && IsSpace(s[0]) then SkipSpace(s[1..]) else s
  }

  /** The digits at the front, read after `n`, and the text behind them. */
  function Digits(s: string, n: nat): (r: (nat, string))
    ensures |r.1| <= |s|
    decreases |s|
  {
    if s != "" && IsDigit(s[0]) then Digits(s[1..], 10 * n + (s[0] as int - '0' as int)) else (n, s)
  }

  /** strtoll in base ten: space, a sign, digits; saturating.  None without digits. */
  function Strtoll(s: string): (r: Parsed<int>)
    ensures r.Done? ==> |r.rest| < |s|
  {
    var t := SkipSpace(s);
    var sign := Head(t) == '-' || Head(t) == '+';
    var u := if sign then t[1..] else t;
    if u == "" || !IsDigit(u[0]) then Fail(EINVAL)
    else
      var (n, rest) := Digits(u[1..], u[0] as int - '0' as int);
      var m: int := n;
      var v := if Head(t) == '-' then -m else m;
      Done(if v >= TWO_63 then TWO_63 - 1 else if v < -TWO_63 then -TWO_63 else v, rest)
  }

  /** A bit number: decimal, or N for the last bit; it must fit 32 bits. */
  function GetNum(s: string, lastBit: nat): (r: Parsed<nat>)
    ensures r.Done? ==> |r.rest| < |s| && (lastBit < TWO_32 ==> r.value < TWO_32)
  {
    if Head(s) == 'N' then Done(lastBit, s[1..])
    else
      match Strtoll(s)
      case Fail(e) => Fail(e)
      case Done(n, rest) => if 0 <= n < TWO_32 then Done(n, rest) else Fail(EOVERFLOW)
  }

  function Lower(c: char): char {
    if 'A' <= c <= 'Z' then (c as int + 32) as char else c
  }

  predicate StartsWithAll(s: string) {
    |s| >= 3 && Lower(s[0]) == 'a' && Lower(s[1]) == 'l' && Lower(s[2]) == 'l'
  }

  // ----------------------------------------------------------------------- regions

  /** With no pattern the region is one group; `more` is false at the end of the text. */
  datatype Text = Stop | More(text: string)

  datatype RegionResult = Bad(error: Error) | Good(region: Region, next: Text)

  function NoPattern(start: nat, end: nat, s: string): RegionResult {
    var one := (end + 1) % TWO_32;
    Good(Region(start, one, one, end), if EndOfStr(Head(s)) then Stop else More(s))
  }

  function Pattern(start: nat, end: nat, s: string, lastBit: nat): (r: RegionResult)
    ensures r.Good? && r.next.More? ==> |r.next.text| <= |s|
  {
    if EndOfRegion(Head(s)) then NoPattern(start, end, s)
    else if Head(s) != ':' then Bad(EINVAL)
    else
      match GetNum(s[1..], lastBit)
      case Fail(e) => Bad(e)
      case Done(off, t) =>
        if Head(t) != '/' then Bad(EINVAL)
        else
          match GetNum(t[1..], lastBit)
          case Fail(e) => Bad(e)
          case Done(groupLen, u) => Good(Region(start, off, groupLen, end), More(u))
  }

  function ParseRegion(s: string, nbits: nat): (r: RegionResult)
    ensures r.Good? && r.next.More? ==> |r.next.text| < |s|
  {
    var lastBit := (nbits + TWO_32 - 1) % TWO_32;
    if StartsWithAll(s) then Pattern(0, lastBit, s[3..], lastBit)
    else
      match GetNum(s, lastBit)
      case Fail(e) => Bad(e)
      case Done(start, t) =>
        if EndOfRegion(Head(t)) then NoPattern(start, start, t)
        else if Head(t) != '-' then Bad(EINVAL)
        else
          match GetNum(t[1..], lastBit)
          case Fail(e) => Bad(e)
          case Done(end, u) => Pattern(start, end, u, lastBit)
  }

  function CheckRegion(r: Region, nbits: nat): Parsed<()> {
    if r.start > r.end || r.groupLen == 0 || r.off > r.groupLen then Fail(EINVAL)
    else if r.end >= nbits then Fail(ERANGE)
    else Done((), "")
  }

  /** The regions of a text, or its first error. */
  datatype Regions = Rejected(error: Error) | Accepted(regions: seq<Region>)

  function Parse(s: string, nbits: nat): Regions
    decreases |s|
  {
    var t := SkipSeparators(s);
    if EndOfStr(Head(t)) then Accepted([])
    else
      match ParseRegion(t, nbits)
      case Bad(e) => Rejected(e)
      case Good(r, next) =>
        match CheckRegion(r, nbits)
        case Fail(e) => Rejected(e)
        case Done(_, _) =>
          match next
          case Stop => Accepted([r])
          case More(u) =>
            match Parse(u, nbits)
            case Rejected(e) => Rejected(e)
            case Accepted(rs) => Accepted([r] + rs)
  }

  /** Bit b belongs to the region. */
  predicate Selects(r: Region, b: nat)
    requires r.groupLen > 0
  {
    r.start <= b <= r.end && (b - r.start) % r.groupLen < r.off
  }

  predicate Valid(r: Region, nbits: nat) {
    r.start <= r.end < nbits && 0 < r.groupLen < TWO_32 && r.off <= r.groupLen
  }

  lemma RegionFits(s: string, nbits: nat)
    requires ParseRegion(s, nbits).Good?
    ensures ParseRegion(s, nbits).region.groupLen < TWO_32
  {
    hide GetNum;
  }

  lemma {:induction false} AcceptedIsValid(s: string, nbits: nat)
    requires Parse(s, nbits).Accepted?
    ensures forall k :: 0 <= k < |Parse(s, nbits).regions| ==> Valid(Parse(s, nbits).regions[k], nbits)
    decreases |s|
  {
    hide ParseRegion;
    var t := SkipSeparators(s);
    if !EndOfStr(Head(t)) {
      var r := ParseRegion(t, nbits);
      RegionFits(t, nbits);
      if r.next.More? { AcceptedIsValid(r.next.text, nbits); }
    }
  }

  // ------------------------------------------------------------- stepping the groups

  /** The bits of the group at `start` that the loop sets. */
  function Length(r: Region, start: nat): nat
    requires start <= r.end
  {
    if r.end - start + 1 < r.off then r.end - start + 1 else r.off
  }

  /** What the loop has left to do.  A group longer than 2^31 makes the 32-bit sum wrap,
      and the loop then walks down instead of up. */
  function Left(r: Region, start: nat): nat {
    if start > r.end then 0 else if r.groupLen <= TWO_31 then r.end - start + 1 else start + 1
  }

  /** The loop, from the group at `start` on, sets bit b. */
  predicate Marks(r: Region, start: nat, b: nat)
    requires 0 < r.groupLen < TWO_32 && r.end < TWO_31
    decreases Left(r, start)
  {
    start <= r.end &&
    (start <= b < start + Length(r, start) || Marks(r, (start + r.groupLen) % TWO_32, b))
  }

  /** The loop ends for every region, wrapping or not, and adds exactly what it marks. */
  method SetRegion(r: Region, bits: array<Word>, nbits: nat)
    requires Valid(r, nbits) && nbits < TWO_31 && nbits <= BITS_PER_LONG * bits.Length
    modifies bits
    ensures forall b: nat :: b < BITS_PER_LONG * bits.Length ==>
              Test(bits[..], b) == (Test(old(bits[..]), b) || Marks(r, r.start, b))
  {
    ghost var was := bits[..];
    var start: nat := r.start;
    while start <= r.end
      invariant forall b: nat :: b < BITS_PER_LONG * bits.Length ==>
                  (Test(bits[..], b) || Marks(r, start, b)) == (Test(was, b) || Marks(r, r.start, b))
      decreases Left(r, start)
    {
      SetBits(bits, start, Length(r, start));
      start := (start + r.groupLen) % TWO_32;
    }
  }

  lemma WithinGroup(b: nat, start: nat, from: nat, g: nat)
    requires g > 0 && from <= start <= b < start + g && (start - from) % g == 0
    ensures (b - from) % g == b - start
  {
    var q := (start - from) / g;
    assert start - from == q * g;
    DivUnique(b - from, g, q, b - start);
  }

  lemma NextGroup(start: nat, from: nat, g: nat)
    requires g > 0 && from <= start && (start - from) % g == 0
    ensures (start + g - from) % g == 0
  {
    var q := (start - from) / g;
    assert start + g - from == (q + 1) * g;
    DivUnique(start + g - from, g, q + 1, 0);
  }

  /** Where the first step does not wrap, no step of the loop does. */
  lemma StepsOn(r: Region, start: nat)
    requires Valid(r, TWO_31) && r.start + r.groupLen < TWO_32
    requires r.start <= start <= r.end && (start - r.start) % r.groupLen == 0
    ensures (start + r.groupLen) % TWO_32 == start + r.groupLen
  {
    if r.groupLen > TWO_31 { DivUnique(start - r.start, r.groupLen, 0, start - r.start); }
  }

  lemma GroupSelects(r: Region, start: nat, b: nat)
    requires Valid(r, TWO_31) && r.start <= start <= b < start + r.groupLen
    requires (start - r.start) % r.groupLen == 0
    ensures Selects(r, b) <==> b <= r.end && b - start < r.off
  {
    WithinGroup(b, start, r.start, r.groupLen);
  }

  /** Without a wrap the loop sets the region's pattern. */
  lemma {:induction false} MarksPattern(r: Region, start: nat, b: nat)
    requires Valid(r, TWO_31) && r.start + r.groupLen < TWO_32
    requires r.start <= start && (start - r.start) % r.groupLen == 0
    ensures Marks(r, start, b) <==> Selects(r, b) && start <= b
    decreases Left(r, start)
  {
    hide Selects;
    if start > r.end {
      BeyondRegion(r, start, b);
    } else {
      StepsOn(r, start);
      NextGroup(start, r.start, r.groupLen);
      MarksPattern(r, start + r.groupLen, b);
      if start <= b < start + r.groupLen { GroupSelects(r, start, b); }
    }
  }

  lemma BeyondRegion(r: Region, start: nat, b: nat)
    requires Valid(r, TWO_31) && start > r.end
    ensures !Marks(r, start, b) && !(Selects(r, b) && start <= b)
  { }

  lemma {:induction false} MarksNothing(r: Region, start: nat, b: nat)
    requires Valid(r, TWO_31) && r.off == 0
    ensures !Marks(r, start, b)
    decreases Left(r, start)
  {
    if start <= r.end { MarksNothing(r, (start + r.groupLen) % TWO_32, b); }
  }

  /** A wrap lands below the region and sets a bit there. */
  lemma WrapStrays(r: Region)
    requires Valid(r, TWO_31) && r.off > 0 && r.start + r.groupLen >= TWO_32
    ensures var b := r.start + r.groupLen - TWO_32;
            b < r.start && Marks(r, r.start, b) && !Selects(r, b)
  {
    var b := r.start + r.groupLen - TWO_32;
    assert (r.start + r.groupLen) % TWO_32 == b;
    assert Marks(r, b, b);
  }

  /** The first step does not wrap 32 bits, or there is nothing to set. */
  predicate Steps(r: Region) {
    r.off == 0 || r.start + r.groupLen < TWO_32
  }

  /** That is exactly when the loop sets the bits of the region and no other. */
  lemma RegionRightExactly(r: Region)
    requires Valid(r, TWO_31)
    ensures (forall b: nat :: Marks(r, r.start, b) <==> Selects(r, b)) <==>
            Steps(r)
  {
    if r.off == 0 {
      forall b: nat ensures Marks(r, r.start, b) <==> Selects(r, b) { MarksNothing(r, r.start, b); }
    } else if r.start + r.groupLen < TWO_32 {
      forall b: nat ensures Marks(r, r.start, b) <==> Selects(r, b) { MarksPattern(r, r.start, b); }
    } else {
      WrapStrays(r);
    }
  }

  lemma DigitsOnce(s: string, n: nat)
    ensures s != "" && IsDigit(s[0]) ==> Digits(s, n) == Digits(s[1..], 10 * n + (s[0] as int - '0' as int))
    ensures s == "" || !IsDigit(s[0]) ==> Digits(s, n) == (n, s)
  { }

  /** Some region selects the bit. */
  ghost predicate Selected(rs: seq<Region>, b: nat)
    requires forall k :: 0 <= k < |rs| ==> rs[k].groupLen > 0
  {
    exists k :: 0 <= k < |rs| && Selects(rs[k], b)
  }

  ghost predicate AllValid(rs: seq<Region>, nbits: nat) {
    forall k :: 0 <= k < |rs| ==> Valid(rs[k], nbits)
  }

  /** The loop over some region sets the bit. */
  ghost predicate Marked(rs: seq<Region>, b: nat)
    requires AllValid(rs, TWO_31)
  {
    exists k :: 0 <= k < |rs| && Marks(rs[k], rs[k].start, b)
  }

  /** What is still to parse completes what was parsed. */
  function Joined(done: seq<Region>, rest: Regions): Regions {
    match rest
    case Rejected(e) => Rejected(e)
    case Accepted(rs) => Accepted(done + rs)
  }

  /** The bits below nbits are those the loops over the regions done so far set. */
  ghost predicate Shows(bits: seq<Word>, nbits: nat, done: seq<Region>)
    requires nbits <= BITS_PER_LONG * |bits|
  {
    AllValid(done, TWO_31) && forall b: nat :: b < nbits ==> (Test(bits, b) <==> Marked(done, b))
  }

  /** Where no region wraps, they are the bits of the regions. */
  lemma ShowsSelected(bits: seq<Word>, nbits: nat, done: seq<Region>)
    requires nbits <= BITS_PER_LONG * |bits| && Shows(bits, nbits, done)
    requires forall k :: 0 <= k < |done| ==> Steps(done[k])
    ensures forall b: nat :: b < nbits ==> (Test(bits, b) <==> Selected(done, b))
  {
    hide Marks, Selects, Test;
    forall k | 0 <= k < |done| ensures forall b: nat :: Marks(done[k], done[k].start, b) <==> Selects(done[k], b) {
      RegionRightExactly(done[k]);
    }
  }

  /** One region of the text. */
  lemma ParseOnce(done: seq<Region>, s: string, nbits: nat)
    ensures var t := SkipSeparators(s);
            if EndOfStr(Head(t)) then Joined(done, Parse(s, nbits)) == Accepted(done)
            else
              var p := ParseRegion(t, nbits);
              if p.Bad? then Joined(done, Parse(s, nbits)) == Rejected(p.error)
              else
                var c := CheckRegion(p.region, nbits);
                if c.Fail? then Joined(done, Parse(s, nbits)) == Rejected(c.error)
                else if p.next.Stop? then Joined(done, Parse(s, nbits)) == Accepted(done + [p.region])
                else Joined(done, Parse(s, nbits)) == Joined(done + [p.region], Parse(p.next.text, nbits))
  {
    hide ParseRegion, CheckRegion;
    var t := SkipSeparators(s);
    if EndOfStr(Head(t)) {
      assert done + [] == done;
    } else {
      var p := ParseRegion(t, nbits);
      if p.Good? && p.next.More? && Parse(p.next.text, nbits).Accepted? {
        var rs := Parse(p.next.text, nbits).regions;
        assert done + ([p.region] + rs) == done + [p.region] + rs;
      }
    }
  }

  lemma ShowsMore(before: seq<Word>, now: seq<Word>, nbits: nat, done: seq<Region>, r: Region)
    requires nbits <= BITS_PER_LONG * |before| && |now| == |before| && Shows(before, nbits, done) && Valid(r, TWO_31)
    requires forall b: nat :: b < BITS_PER_LONG * |before| ==> Test(now, b) == (Test(before, b) || Marks(r, r.start, b))
    ensures Shows(now, nbits, done + [r])
  {
    var more := done + [r];
    forall b: nat | b < nbits ensures Test(now, b) <==> Marked(more, b) {
      if Marked(done, b) {
        var k :| 0 <= k < |done| && Marks(done[k], done[k].start, b);
        assert Marks(more[k], more[k].start, b);
      }
      if Marks(r, r.start, b) { assert Marks(more[|done|], more[|done|].start, b); }
    }
  }

  method BitmapZero(bits: array<Word>, nbits: nat)
    requires nbits <= BITS_PER_LONG * bits.Length
    modifies bits
    ensures Shows(bits[..], nbits, [])
  {
    for k := 0 to (nbits + BITS_PER_LONG - 1) / BITS_PER_LONG
      invariant forall j :: 0 <= j < k ==> bits[j] == Filled(false)
    {
      bits[k] := Filled(false);
    }
  }

  lemma JoinedNothing(s: string, nbits: nat)
    ensures Joined([], Parse(s, nbits)) == Parse(s, nbits)
  {
    var p := Parse(s, nbits);
    if p.Accepted? { assert [] + p.regions == p.regions; }
  }

  datatype Status = Ok | Err(error: Error)

  /** On success a bit is set exactly when the loop over some region of the text sets it,
      so, unless a region wraps, when some region selects it; otherwise the first error in
      the text is returned. */
  method ParseList(buf: string, bits: array<Word>, nbits: nat) returns (r: Status)
    requires nbits <= BITS_PER_LONG * bits.Length && nbits < TWO_31
    modifies bits
    ensures match Parse(buf, nbits)
            case Rejected(e) => r == Err(e)
            case Accepted(regions) =>
              r == Ok && Shows(bits[..], nbits, regions) &&
              ((forall k :: 0 <= k < |regions| ==> Steps(regions[k])) ==>
                 forall b: nat :: b < nbits ==> (Test(bits[..], b) <==> Selected(regions, b)))
  {
    ghost var whole := Parse(buf, nbits);
    r := ParseLoop(buf, bits, nbits);
    if whole.Accepted? && (forall k :: 0 <= k < |whole.regions| ==> Steps(whole.regions[k])) {
      ShowsSelected(bits[..], nbits, whole.regions);
    }
  }

  method ParseLoop(buf: string, bits: array<Word>, nbits: nat) returns (r: Status)
    requires nbits <= BITS_PER_LONG * bits.Length && nbits < TWO_31
    modifies bits
    ensures match Parse(buf, nbits)
            case Rejected(e) => r == Err(e)
            case Accepted(regions) => r == Ok && Shows(bits[..], nbits, regions)
  {
    hide Shows, ParseRegion, Parse, Joined;
    ghost var whole, done: seq<Region> := Parse(buf, nbits), [];
    var text := buf;
    BitmapZero(bits, nbits);
    JoinedNothing(buf, nbits);
    while true
      invariant whole == Joined(done, Parse(text, nbits))
      invariant Shows(bits[..], nbits, done)
      decreases |text|
    {
      ParseOnce(done, text, nbits);
      var found, t := FindRegion(text);
      if !found { return Ok; }
      var p := ParseRegion(t, nbits);
      if p.Bad? { return Err(p.error); }
      var c := CheckRegion(p.region, nbits);
      if c.Fail? { return Err(c.error); }
      RegionFits(t, nbits);
      ghost var before := bits[..];
      SetRegion(p.region, bits, nbits);
      ShowsMore(before, bits[..], nbits, done, p.region);
      done := done + [p.region];
      if p.next.Stop? { return Ok; }
      text := p.next.text;
    }
  }

  // -------------------------------------------------------------- printing and parsing

  function Dec(n: nat): (s: string)
    ensures s != "" && IsDigit(s[0])
  {
    var d := [('0' as int + n % 10) as char];
    if n < 10 then d else Dec(n / 10) + d
  }

  function PrintRegion(r: Region): string {
    Dec(r.start) + "-" + Dec(r.end) + ":" + Dec(r.off) + "/" + Dec(r.groupLen)
  }

  function Print(rs: seq<Region>): string {
    if rs == [] then "" else PrintRegion(rs[0]) + if |rs| == 1 then "" else "," + Print(rs[1..])
  }

  lemma {:induction false} DigitsOfDec(n: nat, rest: string)
    ensures Digits(Dec(n) + rest, 0) == Digits(rest, n)
  {
    var d := [('0' as int + n % 10) as char];
    if n < 10 {
      DigitsOnce(d + rest, 0);
      assert (d + rest)[1..] == rest;
    } else {
      DigitsOfDec(n / 10, d + rest);
      assert Dec(n) + rest == Dec(n / 10) + (d + rest);
      DigitsOnce(d + rest, n / 10);
      assert (d + rest)[1..] == rest;
    }
  }

  lemma NumRound(n: nat, rest: string, lastBit: nat)
    requires n < TWO_32 && (rest == "" || !IsDigit(rest[0]))
    ensures GetNum(Dec(n) + rest, lastBit) == Done(n, rest)
  {
    hide Digits, Dec;
    var s := Dec(n) + rest;
    DigitsOfDec(n, rest);
    DigitsOnce(rest, n);
    DigitsOnce(s, 0);
    assert SkipSpace(s) == s;
  }

  lemma RegionRound(r: Region, rest: string, nbits: nat)
    requires r.start < TWO_32 && r.off < TWO_32 && r.groupLen < TWO_32 && r.end < TWO_32 && (rest == "" || rest[0] == ',')
    ensures ParseRegion(PrintRegion(r) + rest, nbits) == Good(r, More(rest))
    ensures PrintRegion(r) != "" && IsDigit(PrintRegion(r)[0])
  {
    hide GetNum, Dec;
    var lastBit := (nbits + TWO_32 - 1) % TWO_32;
    var u := "/" + (Dec(r.groupLen) + rest);
    var v := ":" + (Dec(r.off) + u);
    var w := "-" + (Dec(r.end) + v);
    assert PrintRegion(r) + rest == Dec(r.start) + w;
    NumRound(r.start, w, lastBit);
    NumRound(r.end, v, lastBit);
    NumRound(r.off, u, lastBit);
    NumRound(r.groupLen, rest, lastBit);
    assert w[1..] == Dec(r.end) + v && v[1..] == Dec(r.off) + u && u[1..] == Dec(r.groupLen) + rest;
  }

  /** Every list of valid regions has a text, and parsing that text gives the list back. */
  lemma {:induction false} ParsePrint(rs: seq<Region>, nbits: nat)
    requires AllValid(rs, nbits) && nbits < TWO_32
    ensures Parse(Print(rs), nbits) == Accepted(rs)
  {
    hide ParseRegion, PrintRegion;
    if rs != [] {
      var rest := if |rs| == 1 then "" else "," + Print(rs[1..]);
      RegionRound(rs[0], rest, nbits);
      assert SkipSeparators(Print(rs)) == Print(rs);
      if |rs| > 1 {
        ParsePrint(rs[1..], nbits);
        assert rest[1..] == Print(rs[1..]);
        assert Parse(rest, nbits) == Parse(Print(rs[1..]), nbits);
      }
      assert [rs[0]] + rs[1..] == rs;
    }
  }

  /** A text that is accepted and sets a bit outside its region. */
  lemma WrapText()
    ensures Parse("1-5:1/4294967295", 8) == Accepted([Region(1, 1, 0xffff_ffff, 5)])
    ensures var r := Region(1, 1, 0xffff_ffff, 5);
            Marks(r, r.start, 0) && !Selects(r, 0)
    ensures Parse("0-5:1/4294967295", 8) == Accepted([Region(0, 1, 0xffff_ffff, 5)])
    ensures Steps(Region(0, 1, 0xffff_ffff, 5))
  {
    hide Parse, Marks, Selects, Print;
    WrapPrint();
    ParsePrint([Region(1, 1, 0xffff_ffff, 5)], 8);
    ParsePrint([Region(0, 1, 0xffff_ffff, 5)], 8);
    WrapStrays(Region(1, 1, 0xffff_ffff, 5));
  }

  lemma DecMore(n: nat)
    requires n >= 10
    ensures Dec(n) == Dec(n / 10) + [('0' as int + n % 10) as char]
  { }

  lemma DecOne(n: nat)
    requires n < 10
    ensures Dec(n) == [('0' as int + n) as char]
  { }

  lemma DecLargest()
    ensures Dec(0xffff_ffff) == "4294967295"
  {
    hide Dec;
    DecOne(4); DecMore(42); DecMore(429); DecMore(4294); DecMore(42949);
    assert Dec(42949) == "42949";
    DecMore(429496); DecMore(4294967); DecMore(42949672); DecMore(429496729); DecMore(0xffff_ffff);
  }

  lemma WrapPrint()
    ensures Print([Region(1, 1, 0xffff_ffff, 5)]) == "1-5:1/4294967295"
    ensures Print([Region(0, 1, 0xffff_ffff, 5)]) == "0-5:1/4294967295"
  {
    hide Dec;
    DecOne(0); DecOne(1); DecOne(5);
    DecLargest();
  }
}
