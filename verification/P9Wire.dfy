/** The bytes of a 9P message as they stand on the wire (virtio/9p-pdu.c), written out. */
module P9Wire {
  import opened Iovec
  import opened P9Codec

  /** Numbers are one, two, four and eight bytes, least significant first. */
  lemma NumbersOnWire(n: nat)
    ensures n < 0x100 ==> Suits('b', Num(n)) && Encode('b', Num(n)) == [n]
    ensures n < 0x1_0000 ==> Suits('w', Num(n)) && Encode('w', Num(n)) == [n % 0x100, n / 0x100]
    ensures n < 0x1_0000_0000 ==>
              Suits('d', Num(n)) &&
              Encode('d', Num(n)) == [n % 0x100, n / 0x100 % 0x100, n / 0x1_0000 % 0x100, n / 0x100_0000]
    ensures n < 0x1_0000_0000_0000_0000 ==>
              Suits('q', Num(n)) && Encode('q', Num(n)) ==
              [n % 0x100, n / 0x100 % 0x100, n / 0x1_0000 % 0x100, n / 0x100_0000 % 0x100,
               n / 0x1_0000_0000 % 0x100, n / 0x100_0000_0000 % 0x100, n / 0x1_0000_0000_0000 % 0x100,
               n / 0x100_0000_0000_0000]
  {
    hide Little, Pow256;
    Powers();
    LittleNext(n, 1);
    LittleNext(n, 2);
    LittleNext(n, 4);
    LittleNext(n, 8);
    if n < 0x1_0000 { TwoBytes(n); }
    if n < 0x1_0000_0000 { FourBytes(n); }
    if n < 0x1_0000_0000_0000_0000 { EightBytes(n); }
    assert Width('b') == 1 && Width('w') == 2 && Width('d') == 4 && Width('q') == 8;
  }

  lemma Powers()
    ensures Pow256(1) == 0x100 && Pow256(2) == 0x1_0000 && Pow256(4) == 0x1_0000_0000
    ensures Pow256(8) == 0x1_0000_0000_0000_0000
  {
    assert Pow256(0) == 1;
    assert Pow256(3) == 0x100_0000;
    assert Pow256(4) == 0x1_0000_0000;
    assert Pow256(5) == 0x100_0000_0000;
    assert Pow256(6) == 0x1_0000_0000_0000;
    assert Pow256(7) == 0x100_0000_0000_0000;
  }

  lemma LittleNext(n: nat, k: nat)
    ensures Little(n, 0) == []
    ensures k > 0 ==> Little(n, k) == [n % 0x100] + Little(n / 0x100, k - 1)
  { }

  lemma TwoBytes(n: nat)
    requires n < 0x1_0000
    ensures Little(n, 2) == [n % 0x100, n / 0x100]
  {
    LittleNext(n, 2);
    LittleNext(n / 0x100, 1);
    LittleNext(n / 0x100 / 0x100, 0);
    hide Little;
    assert n / 0x100 % 0x100 == n / 0x100;
  }

  lemma FourBytes(n: nat)
    requires n < 0x1_0000_0000
    ensures Little(n, 4) == [n % 0x100, n / 0x100 % 0x100, n / 0x1_0000 % 0x100, n / 0x100_0000]
  {
    hide Little;
    LittleNext(n, 4);
    LittleNext(n / 0x100, 3);
    TwoBytes(n / 0x100 / 0x100);
    Shifts(n);
  }

  lemma EightBytes(n: nat)
    requires n < 0x1_0000_0000_0000_0000
    ensures Little(n, 8) ==
            [n % 0x100, n / 0x100 % 0x100, n / 0x1_0000 % 0x100, n / 0x100_0000 % 0x100,
             n / 0x1_0000_0000 % 0x100, n / 0x100_0000_0000 % 0x100, n / 0x1_0000_0000_0000 % 0x100,
             n / 0x100_0000_0000_0000]
  {
    hide Little;
    LittleNext(n, 8);
    LittleNext(n / 0x100, 7);
    LittleNext(n / 0x100 / 0x100, 6);
    LittleNext(n / 0x100 / 0x100 / 0x100, 5);
    Shifts(n);
    var m := n / 0x1_0000_0000;
    FourBytes(m);
    Shifts(m);
    FarShifts(n);
  }

  lemma Shifts(n: nat)
    ensures n / 0x100 / 0x100 == n / 0x1_0000 && n / 0x1_0000 / 0x100 == n / 0x100_0000
    ensures n / 0x100_0000 / 0x100 == n / 0x1_0000_0000
  { }

  lemma FarShifts(n: nat)
    ensures var m := n / 0x1_0000_0000;
            && m / 0x100 == n / 0x100_0000_0000 && m / 0x1_0000 == n / 0x1_0000_0000_0000
            && m / 0x100_0000 == n / 0x100_0000_0000_0000
  { }

  /** A string is the two bytes of its length and its own bytes, up to 65535 of them. */
  lemma StringOnWire(bytes: seq<Byte>)
    requires forall b <- bytes :: b != 0
    ensures Suits('s', Str(bytes))
    ensures var n := if |bytes| < 0xffff then |bytes| else 0xffff;
            Encode('s', Str(bytes)) == [n % 0x100, n / 0x100] + bytes[..n]
  {
    hide Little;
    TwoBytes(Min(|bytes|, 0xffff));
  }

  /** A qid is its type, version and path. */
  lemma QidOnWire(kind: nat, version: nat, path: nat)
    requires kind < 0x100 && version < 0x1_0000_0000 && path < 0x1_0000_0000_0000_0000
    ensures SuitsAll("bdq", [Num(kind), Num(version), Num(path)]) && Suits('Q', Qid(kind, version, path))
    ensures Encode('Q', Qid(kind, version, path))
         == Encode('b', Num(kind)) + Encode('d', Num(version)) + Encode('q', Num(path))
    ensures |Encode('Q', Qid(kind, version, path))| == 13
  {
    hide Suits, Encode;
    NumbersOnWire(kind);
    NumbersOnWire(version);
    NumbersOnWire(path);
    var k, v, p := Num(kind), Num(version), Num(path);
    OneMore("bdq", [k, v, p]);
    OneMore("dq", [v, p]);
    OneMore("q", [p]);
    NoMore();
    assert "bdq"[1..] == "dq" && "dq"[1..] == "q" && "q"[1..] == "";
    assert [k, v, p][1..] == [v, p] && [v, p][1..] == [p] && [p][1..] == [];
    Record('Q', "bdq", [k, v, p]);
  }

  function Qid(kind: nat, version: nat, path: nat): Val {
    Rec([Num(kind), Num(version), Num(path)])
  }

  /** A format is written character by character. */
  lemma OneMore(fmt: string, vals: seq<Val>)
    requires fmt != "" && vals != []
    ensures SuitsAll(fmt, vals) <==> Suits(fmt[0], vals[0]) && SuitsAll(fmt[1..], vals[1..])
    ensures SuitsAll(fmt, vals) ==> EncodeAll(fmt, vals) == Encode(fmt[0], vals[0]) + EncodeAll(fmt[1..], vals[1..])
  {
    LevelsTail(fmt);
  }

  lemma NoMore()
    ensures SuitsAll("", []) && EncodeAll("", []) == []
  { }

  /** A record is written through the format of its kind. */
  lemma Record(c: char, fmt: string, fields: seq<Val>)
    requires (c == 'Q' && fmt == "bdq") || (c == 'S' && fmt == "wwdQdddqssss")
    ensures Suits(c, Rec(fields)) <==> SuitsAll(fmt, fields)
    ensures SuitsAll(fmt, fields) ==> Encode(c, Rec(fields)) == EncodeAll(fmt, fields)
  {
    hide SuitsAll, EncodeAll, Levels, Nested, Little, EncodeString;
    NestedIs();
  }

  lemma NestedIs()
    ensures Nested('Q') == "bdq" && Nested('S') == "wwdQdddqssss"
  {
    hide Levels;
  }

  /** A stat is its twelve fields, the qid among them, in this order. */
  lemma StatOnWire(size: nat, kind: nat, dev: nat, qid: Val, mode: nat, atime: nat, mtime: nat, length: nat,
                   name: seq<Byte>, uid: seq<Byte>, gid: seq<Byte>, muid: seq<Byte>)
    requires Suits('w', Num(size)) && Suits('w', Num(kind)) && Suits('d', Num(dev)) && Suits('Q', qid)
    requires Suits('d', Num(mode)) && Suits('d', Num(atime)) && Suits('d', Num(mtime)) && Suits('q', Num(length))
    requires Suits('s', Str(name)) && Suits('s', Str(uid)) && Suits('s', Str(gid)) && Suits('s', Str(muid))
    ensures var v := Rec([Num(size), Num(kind), Num(dev), qid, Num(mode), Num(atime), Num(mtime), Num(length),
                          Str(name), Str(uid), Str(gid), Str(muid)]);
            && Suits('S', v)
            && Encode('S', v) == Encode('w', Num(size)) + (Encode('w', Num(kind)) + (Encode('d', Num(dev))
               + (Encode('Q', qid) + (Encode('d', Num(mode)) + (Encode('d', Num(atime)) + (Encode('d', Num(mtime))
               + (Encode('q', Num(length)) + (Encode('s', Str(name)) + (Encode('s', Str(uid)) + (Encode('s', Str(gid))
               + Encode('s', Str(muid))))))))))))
  {
    hide Suits, Encode, SuitsAll, EncodeAll;
    var f5 := StatTail(mode, atime, mtime, length, name, uid, gid, muid);
    var f4 := [qid] + f5;
    var f3 := [Num(dev)] + f4;
    var f2 := [Num(kind)] + f3;
    var f1 := [Num(size)] + f2;
    Field('Q', "dddqssss", "Qdddqssss", qid, f5);
    Field('d', "Qdddqssss", "dQdddqssss", Num(dev), f4);
    Field('w', "dQdddqssss", "wdQdddqssss", Num(kind), f3);
    Field('w', "wdQdddqssss", "wwdQdddqssss", Num(size), f2);
    Record('S', "wwdQdddqssss", f1);
    assert f1 == [Num(size), Num(kind), Num(dev), qid, Num(mode), Num(atime), Num(mtime), Num(length),
                  Str(name), Str(uid), Str(gid), Str(muid)];
  }

  /** The fields behind the qid. */
  lemma StatTail(mode: nat, atime: nat, mtime: nat, length: nat,
                 name: seq<Byte>, uid: seq<Byte>, gid: seq<Byte>, muid: seq<Byte>) returns (fields: seq<Val>)
    requires Suits('d', Num(mode)) && Suits('d', Num(atime)) && Suits('d', Num(mtime)) && Suits('q', Num(length))
    requires Suits('s', Str(name)) && Suits('s', Str(uid)) && Suits('s', Str(gid)) && Suits('s', Str(muid))
    ensures fields == [Num(mode), Num(atime), Num(mtime), Num(length), Str(name), Str(uid), Str(gid), Str(muid)]
    ensures SuitsAll("dddqssss", fields)
    ensures EncodeAll("dddqssss", fields) == Encode('d', Num(mode)) + (Encode('d', Num(atime)) + (Encode('d', Num(mtime))
            + (Encode('q', Num(length)) + (Encode('s', Str(name)) + (Encode('s', Str(uid)) + (Encode('s', Str(gid))
            + Encode('s', Str(muid))))))))
  {
    hide Suits, Encode, SuitsAll, EncodeAll;
    var f12 := [Str(muid)];
    var f11 := [Str(gid)] + f12;
    var f10 := [Str(uid)] + f11;
    var f9 := [Str(name)] + f10;
    var f8 := [Num(length)] + f9;
    var f7 := [Num(mtime)] + f8;
    var f6 := [Num(atime)] + f7;
    fields := [Num(mode)] + f6;
    NoMore();
    Field('s', "", "s", Str(muid), []);
    assert [Str(muid)] + [] == f12;
    Field('s', "s", "ss", Str(gid), f12);
    Field('s', "ss", "sss", Str(uid), f11);
    Field('s', "sss", "ssss", Str(name), f10);
    Field('q', "ssss", "qssss", Num(length), f9);
    Field('d', "qssss", "dqssss", Num(mtime), f8);
    Field('d', "dqssss", "ddqssss", Num(atime), f7);
    Field('d', "ddqssss", "dddqssss", Num(mode), f6);
  }

  lemma Field(c: char, fmt: string, whole: string, v: Val, vals: seq<Val>)
    requires whole == [c] + fmt && Suits(c, v) && SuitsAll(fmt, vals)
    ensures SuitsAll(whole, [v] + vals)
    ensures EncodeAll(whole, [v] + vals) == Encode(c, v) + EncodeAll(fmt, vals)
  {
    hide Suits, Encode, SuitsAll, EncodeAll;
    OneMore(whole, [v] + vals);
    assert whole[1..] == fmt && ([v] + vals)[1..] == vals;
  }
}
