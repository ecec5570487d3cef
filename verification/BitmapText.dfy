/** The texts a user may write for a bit list (util/bitmap.c, the comment above
    bitmap_parselist): single bits, spans, spans with a pattern, `all`, and N for the last
    bit; what each selects, and which texts are refused with which error. */
module BitmapText {
  import opened Arith
  import opened Bitmap
  import opened BitmapParse

  datatype Number = Given(n: nat) | Last

  datatype Item =
    | One(a: Number)
    | Span(a: Number, b: Number)
    | Spaced(a: Number, b: Number, used: Number, group: Number)
    | All
    | AllSpaced(used: Number, group: Number)

  function NumberText(x: Number): string {
    match x
    case Given(n) => Dec(n)
    case Last => "N"
  }

  function ItemText(x: Item): string {
    match x
    case One(a) => NumberText(a)
    case Span(a, b) => NumberText(a) + "-" + NumberText(b)
    case Spaced(a, b, used, group) =>
      NumberText(a) + "-" + NumberText(b) + ":" + NumberText(used) + "/" + NumberText(group)
    case All => "all"
    case AllSpaced(used, group) => "all:" + NumberText(used) + "/" + NumberText(group)
  }

  /** Items are separated by commas. */
  function ListText(xs: seq<Item>): string {
    if xs == [] then "" else ItemText(xs[0]) + if |xs| == 1 then "" else "," + ListText(xs[1..])
  }

  function Value(x: Number, nbits: nat): int {
    match x
    case Given(n) => n
    case Last => nbits - 1
  }

  /** The item asks for bit b: its first and last bit, and which of each group. */
  predicate Wants(x: Item, nbits: nat, b: nat) {
    match x
    case One(a) => b == Value(a, nbits)
    case Span(a, c) => Value(a, nbits) <= b <= Value(c, nbits)
    case Spaced(a, c, used, group) =>
      Value(a, nbits) <= b <= Value(c, nbits) &&
      Value(group, nbits) > 0 && (b - Value(a, nbits)) % Value(group, nbits) < Value(used, nbits)
    case All => b < nbits
    case AllSpaced(used, group) =>
      b < nbits && Value(group, nbits) > 0 && b % Value(group, nbits) < Value(used, nbits)
  }

  /** What the program demands of an item: its bits in order and inside the map, and a
      pattern that is no longer than its group. */
  predicate Proper(x: Item, nbits: nat) {
    && 0 < nbits < TWO_31
    && match x
       case One(a) => Value(a, nbits) < nbits
       case Span(a, b) => Value(a, nbits) <= Value(b, nbits) < nbits
       case Spaced(a, b, used, group) =>
         Value(a, nbits) <= Value(b, nbits) < nbits && PatternOk(used, group, nbits)
       case All => true
       case AllSpaced(used, group) => PatternOk(used, group, nbits)
  }

  predicate PatternOk(used: Number, group: Number, nbits: nat) {
    0 < nbits && 0 < Value(group, nbits) < TWO_32 && Value(used, nbits) <= Value(group, nbits)
  }

  // ---------------------------------------------------------------------- one number

  predicate Follows(rest: string) { rest == "" || !IsDigit(rest[0]) }

  lemma NumberParses(x: Number, rest: string, nbits: nat)
    requires 0 < nbits < TWO_32 && Value(x, nbits) < TWO_32 && Follows(rest)
    ensures GetNum(NumberText(x) + rest, nbits - 1) == Done(Value(x, nbits), rest)
    ensures NumberText(x) != "" && (IsDigit(NumberText(x)[0]) || NumberText(x)[0] == 'N')
  {
    match x
    case Given(n) => NumRound(n, rest, nbits - 1);
    case Last => assert ("N" + rest)[1..] == rest;
  }

  lemma LastBit(nbits: nat)
    requires 0 < nbits < TWO_32
    ensures (nbits + TWO_32 - 1) % TWO_32 == nbits - 1
  { }

  // ------------------------------------------------------------------------ one item

  /** The region the program makes of an item; ListParses ties it to Wants. */
  function Meant(x: Item, nbits: nat): Region
    requires Proper(x, nbits)
  {
    match x
    case One(a) => Whole(Value(a, nbits), Value(a, nbits))
    case Span(a, b) => Whole(Value(a, nbits), Value(b, nbits))
    case Spaced(a, b, used, group) =>
      Region(Value(a, nbits), Value(used, nbits), Value(group, nbits), Value(b, nbits))
    case All => Whole(0, nbits - 1)
    case AllSpaced(used, group) => Region(0, Value(used, nbits), Value(group, nbits), nbits - 1)
  }

  /** One group that reaches from bit 0 past the end of the span. */
  function Whole(a: nat, b: nat): Region { Region(a, b + 1, b + 1, b) }

  /** Every item is right where its own groups do not wrap 32 bits: always, without a pattern. */
  lemma MeantIs(x: Item, nbits: nat)
    requires Proper(x, nbits)
    ensures var r := Meant(x, nbits);
            && Valid(r, nbits) && (!x.Spaced? && !x.AllSpaced? ==> Steps(r))
            && forall b: nat :: Selects(r, b) <==> Wants(x, nbits, b)
  {
    var r := Meant(x, nbits);
    forall b: nat ensures Selects(r, b) <==> Wants(x, nbits, b) {
      if !x.Spaced? && !x.AllSpaced? && r.start <= b <= r.end {
        DivUnique(b - r.start, r.groupLen, 0, b - r.start);
      }
    }
  }

  predicate Ends(rest: string) { rest == "" || rest[0] == ',' }

  function PatternText(used: Number, group: Number, rest: string): string {
    ":" + (NumberText(used) + ("/" + (NumberText(group) + rest)))
  }

  /** The pattern behind a span, or its absence. */
  lemma PatternParses(a: nat, b: nat, used: Number, group: Number, rest: string, nbits: nat)
    requires PatternOk(used, group, nbits) && nbits < TWO_32 && Ends(rest)
    ensures Pattern(a, b, PatternText(used, group, rest), nbits - 1)
         == Good(Region(a, Value(used, nbits), Value(group, nbits), b), More(rest))
  {
    hide GetNum, NumberText;
    var v := "/" + (NumberText(group) + rest);
    var u := ":" + (NumberText(used) + v);
    NumberParses(used, v, nbits);
    NumberParses(group, rest, nbits);
    assert u[1..] == NumberText(used) + v && v[1..] == NumberText(group) + rest;
  }

  /** What is left to parse behind an item without a pattern: at the end of the text, nothing. */
  function Left(rest: string): Text { if rest == "" then Stop else More(rest) }

  lemma NoPatternParses(a: nat, b: nat, rest: string, lastBit: nat)
    requires b < TWO_31 && Ends(rest)
    ensures Pattern(a, b, rest, lastBit) == NoPattern(a, b, rest) == Good(Whole(a, b), Left(rest))
  { }

  /** A span with what follows it. */
  lemma SpanParses(a: Number, b: Number, tail: string, nbits: nat)
    requires 0 < nbits < TWO_32 && Value(a, nbits) < TWO_32 && Value(b, nbits) < TWO_32 && Follows(tail)
    ensures ParseRegion(NumberText(a) + ("-" + (NumberText(b) + tail)), nbits)
         == Pattern(Value(a, nbits), Value(b, nbits), tail, nbits - 1)
  {
    hide GetNum, NumberText, Pattern, NoPattern;
    LastBit(nbits);
    var w := "-" + (NumberText(b) + tail);
    NumberParses(a, w, nbits);
    NumberParses(b, tail, nbits);
    assert w[1..] == NumberText(b) + tail;
    NotAll(a, w, nbits);
  }

  lemma NotAll(a: Number, rest: string, nbits: nat)
    requires 0 < nbits < TWO_32 && Value(a, nbits) < TWO_32 && Follows(rest)
    ensures !StartsWithAll(NumberText(a) + rest)
  {
    hide GetNum, NumberText;
    NumberParses(a, rest, nbits);
  }

  lemma AllParses(tail: string, nbits: nat)
    requires 0 < nbits < TWO_32
    ensures ParseRegion("all" + tail, nbits) == Pattern(0, nbits - 1, tail, nbits - 1)
  {
    hide Pattern, GetNum;
    LastBit(nbits);
    assert ("all" + tail)[3..] == tail;
  }

  lemma OneParses(a: Number, rest: string, nbits: nat)
    requires 0 < nbits < TWO_31 && Value(a, nbits) < nbits && Ends(rest)
    ensures ParseRegion(NumberText(a) + rest, nbits) == Good(Whole(Value(a, nbits), Value(a, nbits)), Left(rest))
  {
    hide GetNum, NumberText;
    LastBit(nbits);
    NumberParses(a, rest, nbits);
    NotAll(a, rest, nbits);
  }

  /** Any item, with or without another behind it. */
  lemma ItemParses(x: Item, rest: string, nbits: nat)
    requires Proper(x, nbits) && Ends(rest)
    ensures ParseRegion(ItemText(x) + rest, nbits) ==
            Good(Meant(x, nbits), if x.Spaced? || x.AllSpaced? then More(rest) else Left(rest))
  {
    hide ParseRegion, NumberText, Pattern, NoPattern, ItemText, PatternText, Whole;
    ItemSplits(x, rest);
    match x
    case One(a) => OneParses(a, rest, nbits);
    case Span(a, b) =>
      SpanParses(a, b, rest, nbits);
      NoPatternParses(Value(a, nbits), Value(b, nbits), rest, nbits - 1);
    case Spaced(a, b, used, group) =>
      PatternFollows(used, group, rest);
      SpanParses(a, b, PatternText(used, group, rest), nbits);
      PatternParses(Value(a, nbits), Value(b, nbits), used, group, rest, nbits);
    case All =>
      AllParses(rest, nbits);
      NoPatternParses(0, nbits - 1, rest, nbits - 1);
    case AllSpaced(used, group) =>
      AllParses(PatternText(used, group, rest), nbits);
      PatternParses(0, nbits - 1, used, group, rest, nbits);
  }

  lemma PatternFollows(used: Number, group: Number, rest: string)
    ensures Follows(PatternText(used, group, rest))
  { }

  /** The text of an item and what follows it, from left to right. */
  lemma ItemSplits(x: Item, rest: string)
    ensures ItemText(x) + rest ==
            match x
            case One(a) => NumberText(a) + rest
            case Span(a, b) => NumberText(a) + ("-" + (NumberText(b) + rest))
            case Spaced(a, b, used, group) => NumberText(a) + ("-" + (NumberText(b) + PatternText(used, group, rest)))
            case All => "all" + rest
            case AllSpaced(used, group) => "all" + PatternText(used, group, rest)
  {
    hide NumberText;
    match x
    case One(a) =>
    case Span(a, b) => Join3(NumberText(a), "-", NumberText(b), rest);
    case Spaced(a, b, used, group) =>
      var u, v := NumberText(used), NumberText(group);
      Join3(NumberText(a) + "-" + NumberText(b) + ":" + u, "/", v, rest);
      Join3(NumberText(a) + "-" + NumberText(b), ":", u, "/" + (v + rest));
      Join3(NumberText(a), "-", NumberText(b), PatternText(used, group, rest));
    case All =>
    case AllSpaced(used, group) =>
      var u, v := NumberText(used), NumberText(group);
      AllColon(u);
      Join3("all" + ":" + u, "/", v, rest);
      Join3("all", ":", u, "/" + (v + rest));
  }

  lemma AllColon(u: string)
    ensures "all:" + u == "all" + ":" + u
  { }

  lemma Join3(a: string, b: string, c: string, rest: string)
    ensures a + b + c + rest == a + (b + (c + rest))
  { }

  lemma ItemStarts(x: Item, rest: string, nbits: nat)
    requires Proper(x, nbits)
    ensures ItemText(x) != "" && !Separator(ItemText(x)[0]) && !EndOfStr(ItemText(x)[0])
  {
    hide GetNum;
    match x
    case One(a) => NumberParses(a, "", nbits);
    case Span(a, b) => NumberParses(a, "", nbits);
    case Spaced(a, b, used, group) => NumberParses(a, "", nbits);
    case All =>
    case AllSpaced(used, group) =>
  }

  // ------------------------------------------------------------------------ any list

  ghost predicate AllProper(xs: seq<Item>, nbits: nat) {
    forall k :: 0 <= k < |xs| ==> Proper(xs[k], nbits)
  }

  function MeantAll(xs: seq<Item>, nbits: nat): (rs: seq<Region>)
    requires AllProper(xs, nbits)
    ensures |rs| == |xs|
  {
    seq<Region>(|xs|, k requires 0 <= k < |xs| => Meant(xs[k], nbits))
  }

  /** The text of any list of proper items is accepted, and its regions select exactly the
      bits the items ask for. */
  lemma ListParses(xs: seq<Item>, nbits: nat)
    requires AllProper(xs, nbits)
    ensures Parse(ListText(xs), nbits) == Accepted(MeantAll(xs, nbits))
    ensures forall k :: 0 <= k < |xs| ==>
              var r := MeantAll(xs, nbits)[k];
              && Valid(r, nbits) && (!xs[k].Spaced? && !xs[k].AllSpaced? ==> Steps(r))
              && forall b: nat :: Selects(r, b) <==> Wants(xs[k], nbits, b)
  {
    hide Meant, Selects, Wants, Steps, Parse, Valid;
    ListAccepted(xs, nbits);
    forall k | 0 <= k < |xs| { MeantIs(xs[k], nbits); }
  }

  lemma {:induction false} ListAccepted(xs: seq<Item>, nbits: nat)
    requires AllProper(xs, nbits)
    ensures Parse(ListText(xs), nbits) == Accepted(MeantAll(xs, nbits))
  {
    hide ParseRegion, ItemText, Meant, Parse, Proper, Valid, Selects, Wants, Steps;
    if xs == [] {
      ParseEnds(nbits);
      assert MeantAll(xs, nbits) == [];
    } else {
      var rest := if |xs| == 1 then "" else "," + ListText(xs[1..]);
      ItemStarts(xs[0], rest, nbits);
      ItemParses(xs[0], rest, nbits);
      MeantIs(xs[0], nbits);
      ListAccepted(xs[1..], nbits);
      if |xs| > 1 { CommaSkips(ListText(xs[1..]), nbits); } else { ParseEnds(nbits); }
      ParseFirst(ItemText(xs[0]) + rest, nbits, Meant(xs[0], nbits), rest, MeantAll(xs[1..], nbits));
      MeantMore(xs, nbits);
    }
  }

  lemma MeantMore(xs: seq<Item>, nbits: nat)
    requires AllProper(xs, nbits) && xs != []
    ensures [Meant(xs[0], nbits)] + MeantAll(xs[1..], nbits) == MeantAll(xs, nbits)
  {
    hide Meant;
  }

  lemma ParseEnds(nbits: nat)
    ensures Parse("", nbits) == Accepted([])
  { }

  lemma CommaSkips(s: string, nbits: nat)
    ensures Parse("," + s, nbits) == Parse(s, nbits)
  {
    assert ("," + s)[1..] == s;
    assert SkipSeparators("," + s) == SkipSeparators(s);
  }

  /** One region in front of a text that is accepted. */
  lemma ParseFirst(s: string, nbits: nat, r: Region, rest: string, rs: seq<Region>)
    requires s != "" && !Separator(s[0]) && !EndOfStr(s[0]) && Valid(r, nbits)
    requires ParseRegion(s, nbits) == Good(r, More(rest)) || (rest == "" && ParseRegion(s, nbits) == Good(r, Stop))
    requires Parse(rest, nbits) == Accepted(rs) && (rest == "" ==> rs == [])
    ensures Parse(s, nbits) == Accepted([r] + rs)
  {
    hide ParseRegion;
    assert SkipSeparators(s) == s;
    assert [r] + [] == [r];
  }

  // -------------------------------------------------------------------------- errors

  /** A number of more than 32 bits, or below zero, is an overflow. */
  lemma NumberOverflows(n: nat, rest: string, lastBit: nat)
    requires Follows(rest)
    ensures n >= TWO_32 ==> GetNum(Dec(n) + rest, lastBit) == Fail(EOVERFLOW)
    ensures n > 0 ==> GetNum("-" + (Dec(n) + rest), lastBit) == Fail(EOVERFLOW)
  {
    hide Digits, Dec;
    var s := Dec(n) + rest;
    DigitsOfDec(n, rest);
    DigitsOnce(rest, n);
    DigitsOnce(s, 0);
    assert SkipSpace(s) == s;
    var t := "-" + s;
    assert SkipSpace(t) == t && t[1..] == s;
  }

  /** A region written in full is accepted exactly when it is valid; otherwise the error
      tells whether its shape is wrong or it leaves the map. */
  lemma RegionErrors(r: Region, nbits: nat)
    requires r.start < TWO_32 && r.off < TWO_32 && r.groupLen < TWO_32 && r.end < TWO_32 && nbits < TWO_32
    ensures Parse(PrintRegion(r), nbits) ==
            if r.start > r.end || r.groupLen == 0 || r.off > r.groupLen then Rejected(EINVAL)
            else if r.end >= nbits then Rejected(ERANGE)
            else Accepted([r])
  {
    hide ParseRegion, PrintRegion;
    RegionRound(r, "", nbits);
    assert PrintRegion(r) + "" == PrintRegion(r);
    assert SkipSeparators(PrintRegion(r)) == PrintRegion(r);
    ParseEnds(nbits);
    assert [r] + [] == [r];
  }

  /** The first region that is refused decides the error, whatever follows. */
  lemma FirstErrorWins(x: Item, rest: string, nbits: nat, e: Error)
    requires Proper(x, nbits) && Parse(rest, nbits) == Rejected(e)
    ensures Parse(ItemText(x) + ("," + rest), nbits) == Rejected(e)
  {
    hide ParseRegion, ItemText, Meant;
    ItemStarts(x, "," + rest, nbits);
    ItemParses(x, "," + rest, nbits);
    MeantIs(x, nbits);
    CommaSkips(rest, nbits);
    var s := ItemText(x) + ("," + rest);
    assert SkipSeparators(s) == s;
  }

  // ------------------------------------------------------- separators, lines and case

  /** Spaces of any kind and commas in front of a text do not matter. */
  lemma SeparatorSkips(c: char, s: string, nbits: nat)
    requires c == ' ' || c == ',' || 9 <= c as int <= 13
    ensures Parse([c] + s, nbits) == Parse(s, nbits)
  {
    assert ([c] + s)[1..] == s;
    assert SkipSeparators([c] + s) == SkipSeparators(s);
  }

  /** A line ends the list behind an item without a pattern, and a NUL anywhere; what
      follows is not looked at. */
  lemma LineEnds(x: Item, s: string, nbits: nat)
    requires Proper(x, nbits) && !x.Spaced? && !x.AllSpaced?
    ensures Parse(ItemText(x) + ("\n" + s), nbits) == Accepted([Meant(x, nbits)])
    ensures Parse("\0" + s, nbits) == Accepted([])
  {
    hide ParseRegion, ItemText, Meant;
    var rest := "\n" + s;
    ItemStarts(x, rest, nbits);
    LineParses(x, rest, nbits);
    MeantIs(x, nbits);
    var t := ItemText(x) + rest;
    assert SkipSeparators(t) == t;
    assert SkipSeparators("\0" + s) == "\0" + s;
  }

  lemma LineParses(x: Item, rest: string, nbits: nat)
    requires Proper(x, nbits) && !x.Spaced? && !x.AllSpaced? && rest != "" && rest[0] == '\n'
    ensures ParseRegion(ItemText(x) + rest, nbits) == Good(Meant(x, nbits), Stop)
  {
    hide NumberText, Pattern, GetNum, ItemText;
    ItemSplits(x, rest);
    LastBit(nbits);
    match x
    case One(a) =>
      NumberParses(a, rest, nbits);
      NotAll(a, rest, nbits);
    case Span(a, b) =>
      SpanParses(a, b, rest, nbits);
      LineNoPattern(Value(a, nbits), Value(b, nbits), rest, nbits - 1);
    case All =>
      AllParses(rest, nbits);
      LineNoPattern(0, nbits - 1, rest, nbits - 1);
    case _ =>
  }

  lemma LineNoPattern(a: nat, b: nat, rest: string, lastBit: nat)
    requires b < TWO_31 && rest != "" && rest[0] == '\n'
    ensures Pattern(a, b, rest, lastBit) == Good(Whole(a, b), Stop)
  { }

  /** The word `all` may be written in capitals. */
  lemma AllAnyCase(a: char, l: char, m: char, s: string, nbits: nat)
    requires (a == 'a' || a == 'A') && (l == 'l' || l == 'L') && (m == 'l' || m == 'L')
    ensures ParseRegion([a, l, m] + s, nbits) == ParseRegion("all" + s, nbits)
  {
    hide Pattern, GetNum;
    assert ([a, l, m] + s)[3..] == s && ("all" + s)[3..] == s;
  }
}
