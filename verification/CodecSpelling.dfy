/** What the decoder accepts, stated without it: the byte strings that spell a value. An encoding is one of them; others have
    redundant bytes in their numbers. */
module CodecSpelling {
  import opened Wrappers
  import opened Octets
  import opened Codec

  /** At most ten bytes, all but the last with the high bit set, whose low bits are the number, cut to 64 bits. */
  ghost predicate SpellsInt(n: nat, c: seq<Byte>) {
    && 0 < |c| <= 10 && c[|c| - 1] < 128 && (forall i :: 0 <= i < |c| - 1 ==> c[i] >= 128)
    && Digits(c) % 0x1_0000_0000_0000_0000 == n
  }

  ghost predicate Spells(s: Schema, v: Value, c: seq<Byte>)
    decreases s, 0
  {
    match s
    case Unit => v == Nothing && c == []
    case Bool => (v == Flag(false) && c == [0]) || (v == Flag(true) && c == [1])
    case U8 => |c| == 1 && v == Number(c[0])
    case Int(bits) => v.Number? && SpellsInt(v.n, c) && (bits == 16 || bits == 32 || bits == 64) && IntFits(bits, v.n)
    case Slice => v.Raw? && exists k: nat :: k <= |c| && SpellsInt(|v.bytes|, c[..k]) && c[k..] == v.bytes
    case Array(e, n) => v.List? && |v.items| == n && SpellsAll(e, v.items, c)
    case Opt(e) => (v == Absent && c == [0]) || (v.Present? && c != [] && c[0] == 1 && Spells(e, v.inner, c[1..]))
    case Res(x, y) =>
      && c != []
      && ((v.Good? && c[0] == 1 && Spells(x, v.value, c[1..])) || (v.Bad? && c[0] == 0 && Spells(y, v.error, c[1..])))
    case Pair(x, y) => v.Both? && exists k: nat :: k <= |c| && Spells(x, v.left, c[..k]) && Spells(y, v.right, c[k..])
    case Vec(e) => v.List? && exists k: nat :: k <= |c| && SpellsInt(|v.items|, c[..k]) && SpellsAll(e, v.items, c[k..])
  }

  /** One element's spelling after another, from the first to the last. */
  ghost predicate SpellsAll(e: Schema, vs: seq<Value>, c: seq<Byte>)
    decreases e, |vs| + 1
  {
    if vs == [] then c == []
    else exists k: nat :: k <= |c| && Spells(e, vs[0], c[..k]) && SpellsAll(e, vs[1..], c[k..])
  }

  // -------------------------------------------- whatever spells a value is accepted

  lemma {:induction false} IntReads(bits: nat, n: nat, c: seq<Byte>, rest: seq<Byte>)
    requires SpellsInt(n, c) && IntFits(bits, n)
    ensures DecodeInt(bits, c + rest) == Some((n, rest))
  {
    hide Digits, DecodeInt;
    var b, j := c + rest, |c| - 1;
    assert b[..j + 1] == c && b[j + 1..] == rest;
    assert b[j] < 128 && forall i :: 0 <= i < j ==> b[i] >= 128;
    IntDecodesAt(bits, b, j);
  }

  lemma {:induction false} SpellsSome(s: Schema, v: Value, c: seq<Byte>)
    requires NonEmpty(s) && Spells(s, v, c)
    ensures |c| > 0
    decreases s
  {
    match s
    case Array(e, n) =>
      var k: nat :| k <= |c| && Spells(e, v.items[0], c[..k]) && SpellsAll(e, v.items[1..], c[k..]);
      SpellsSome(e, v.items[0], c[..k]);
    case Pair(x, y) =>
      var k: nat :| k <= |c| && Spells(x, v.left, c[..k]) && Spells(y, v.right, c[k..]);
      if NonEmpty(x) { SpellsSome(x, v.left, c[..k]); } else { SpellsSome(y, v.right, c[k..]); }
    case _ =>
  }

  lemma {:induction false} SpellsLong(e: Schema, vs: seq<Value>, c: seq<Byte>)
    requires NonEmpty(e) && SpellsAll(e, vs, c)
    ensures |vs| <= |c|
    decreases |vs|
  {
    if vs == [] {
    } else {
      var k: nat :| k <= |c| && Spells(e, vs[0], c[..k]) && SpellsAll(e, vs[1..], c[k..]);
      hide Spells, SpellsAll, NonEmpty;
      SpellsSome(e, vs[0], c[..k]);
      SpellsLong(e, vs[1..], c[k..]);
    }
  }

  lemma {:induction false} Reads(s: Schema, v: Value, c: seq<Byte>, rest: seq<Byte>)
    requires Sound(s) && Spells(s, v, c)
    ensures Decode(s, c + rest) == Some((v, rest))
    decreases s, 0
  {
    hide Decode, DecodeAll, DecodeInt, SpellsAll, SpellsInt, NonEmpty;
    match s
    case Slice => SliceReads(v, c, rest);
    case Array(e, n) =>
      AllReads(e, [], v.items, c, rest);
      assert [] + v.items == v.items;
      UnfoldArray(e, n, c + rest);
    case Opt(e) =>
      if v.Present? { Reads(e, v.inner, c[1..], rest); }
      FirstOff(c, rest);
      UnfoldOptional(e, c + rest);
    case Res(x, y) =>
      if v.Good? { Reads(x, v.value, c[1..], rest); } else { Reads(y, v.error, c[1..], rest); }
      FirstOff(c, rest);
      UnfoldResult(x, y, c + rest);
    case Pair(x, y) =>
      var k: nat :| k <= |c| && Spells(x, v.left, c[..k]) && Spells(y, v.right, c[k..]);
      Reads(x, v.left, c[..k], c[k..] + rest);
      Reads(y, v.right, c[k..], rest);
      CutAndRest(c, k, rest);
      UnfoldBoth(x, y, c + rest);
    case Vec(e) =>
      var k: nat :| k <= |c| && SpellsInt(|v.items|, c[..k]) && SpellsAll(e, v.items, c[k..]);
      AllReads(e, [], v.items, c[k..], rest);
      assert [] + v.items == v.items;
      SpellsLong(e, v.items, c[k..]);
      CutAndRest(c, k, rest);
      LengthReads(|v.items|, c[..k], c[k..] + rest);
      UnfoldVec(e, c + rest);
    case _ => PlainReads(s, v, c, rest);
  }

  lemma {:induction false} CutAndRest(c: seq<Byte>, k: nat, rest: seq<Byte>)
    requires k <= |c|
    ensures c + rest == c[..k] + (c[k..] + rest)
  {
  }

  lemma {:induction false} FirstOff(c: seq<Byte>, rest: seq<Byte>)
    requires c != []
    ensures (c + rest)[0] == c[0] && (c + rest)[1..] == c[1..] + rest
    ensures |c| == 1 ==> c[1..] + rest == rest
  {
  }

  lemma {:induction false} LengthReads(n: nat, c: seq<Byte>, rest: seq<Byte>)
    requires SpellsInt(n, c)
    ensures DecodeInt(64, c + rest) == Some((n, rest))
  {
    hide DecodeInt;
    IntReads(64, n, c, rest);
  }

  lemma {:induction false} PlainReads(s: Schema, v: Value, c: seq<Byte>, rest: seq<Byte>)
    requires (s.Unit? || s.Bool? || s.U8? || s.Int?) && Spells(s, v, c)
    ensures Decode(s, c + rest) == Some((v, rest))
  {
    hide DecodeInt, SpellsInt;
    if s.Unit? {
      assert c + rest == rest;
    } else if s.Int? {
      IntReads(s.bits, v.n, c, rest);
    } else {
      FirstOff(c, rest);
    }
  }

  lemma {:induction false} SliceReads(v: Value, c: seq<Byte>, rest: seq<Byte>)
    requires Spells(Slice, v, c)
    ensures Decode(Slice, c + rest) == Some((v, rest))
  {
    hide DecodeInt, SpellsInt;
    var k: nat :| k <= |c| && SpellsInt(|v.bytes|, c[..k]) && c[k..] == v.bytes;
    CutAndRest(c, k, rest);
    LengthReads(|v.bytes|, c[..k], c[k..] + rest);
    assert (v.bytes + rest)[..|v.bytes|] == v.bytes && (v.bytes + rest)[|v.bytes|..] == rest;
  }

  lemma {:induction false} AllReads(e: Schema, vs: seq<Value>, ws: seq<Value>, c: seq<Byte>, rest: seq<Byte>)
    requires Sound(e) && SpellsAll(e, ws, c)
    ensures DecodeAll(e, |ws|, vs, c + rest) == Some((vs + ws, rest))
    decreases e, |ws| + 1
  {
    hide Decode, Spells, Sound;
    if ws == [] {
      assert vs + ws == vs && c + rest == rest;
    } else {
      var k: nat :| k <= |c| && Spells(e, ws[0], c[..k]) && SpellsAll(e, ws[1..], c[k..]);
      CutAndRest(c, k, rest);
      Reads(e, ws[0], c[..k], c[k..] + rest);
      AllReads(e, vs + [ws[0]], ws[1..], c[k..], rest);
      assert vs + [ws[0]] + ws[1..] == vs + ws;
    }
  }

  // ----- one step of the decoder at a time

  lemma {:induction false} UnfoldArray(e: Schema, n: nat, b: seq<Byte>)
    ensures Decode(Array(e, n), b) == Listed(DecodeAll(e, n, [], b))
  {
    hide DecodeAll, Listed;
  }

  lemma {:induction false} UnfoldOptional(e: Schema, b: seq<Byte>)
    ensures Decode(Opt(e), b) ==
              if b == [] || b[0] > 1 then None
              else if b[0] == 0 then Some((Absent, b[1..]))
              else match Decode(e, b[1..])
                case None => None
                case Some((v, rest)) => Some((Present(v), rest))
  {
    hide DecodeAll, Listed;
  }

  lemma {:induction false} UnfoldResult(x: Schema, y: Schema, b: seq<Byte>)
    ensures Decode(Res(x, y), b) ==
              if b == [] || b[0] > 1 then None
              else match Decode(if b[0] == 1 then x else y, b[1..])
                case None => None
                case Some((v, rest)) => Some((if b[0] == 1 then Good(v) else Bad(v), rest))
  {
    hide DecodeAll, Listed;
  }

  lemma {:induction false} UnfoldBoth(x: Schema, y: Schema, b: seq<Byte>)
    ensures Decode(Pair(x, y), b) ==
              match Decode(x, b)
              case None => None
              case Some((v, rest)) =>
                match Decode(y, rest)
                case None => None
                case Some((w, more)) => Some((Both(v, w), more))
  {
    hide DecodeAll, Listed;
  }

  lemma {:induction false} UnfoldVec(e: Schema, b: seq<Byte>)
    ensures Decode(Vec(e), b) ==
              match DecodeInt(64, b)
              case None => None
              case Some((n, rest)) => if n > |rest| then None else Listed(DecodeAll(e, n, [], rest))
  {
    hide DecodeAll, Listed, DecodeInt;
  }

  // ------------------------------------------ whatever is accepted spells its value

  /** The value and the rest, when b is a spelling of the value and then the rest. */
  ghost predicate Splits(s: Schema, b: seq<Byte>, v: Value, rest: seq<Byte>) {
    |rest| <= |b| && b == b[..|b| - |rest|] + rest && Spells(s, v, b[..|b| - |rest|])
  }

  lemma {:induction false} IntSpelled(bits: nat, b: seq<Byte>)
    requires DecodeInt(bits, b).Some?
    ensures var (n, rest) := DecodeInt(bits, b).value;
            && |rest| <= |b| && b == b[..|b| - |rest|] + rest
            && SpellsInt(n, b[..|b| - |rest|]) && (bits == 16 || bits == 32 || bits == 64) && IntFits(bits, n)
  {
    hide Digits, DecodeInt, SpellsInt;
    var j := LastByteAt(bits, b);
    DecodesAt(bits, b, j);
    assert b == b[..j + 1] + b[j + 1..];
    assert b[..|b| - |b[j + 1..]|] == b[..j + 1];
  }

  lemma {:induction false} DecodesAt(bits: nat, b: seq<Byte>, j: nat)
    requires j < |b| && j < 10 && b[j] < 128 && forall i :: 0 <= i < j ==> b[i] >= 128
    requires DecodeInt(bits, b).Some?
    ensures var (n, rest) := DecodeInt(bits, b).value;
            rest == b[j + 1..] && SpellsInt(n, b[..j + 1]) && (bits == 16 || bits == 32 || bits == 64) && IntFits(bits, n)
  {
    hide Digits, DecodeInt;
    IntDecodesAt(bits, b, j);
    assert forall i :: 0 <= i < j ==> b[..j + 1][i] == b[i];
  }

  lemma {:induction false} LastByteAt(bits: nat, b: seq<Byte>) returns (j: nat)
    requires DecodeInt(bits, b).Some?
    ensures j < |b| && j < 10 && b[j] < 128 && forall k :: 0 <= k < j ==> b[k] >= 128
  {
    hide Digits, DecodeInt;
    IntDecodes(bits, b);
    var i :| 0 <= i < |b| && i < 10 && b[i] < 128;
    j := FirstSmall(b, i);
  }

  lemma {:induction false} FirstSmall(b: seq<Byte>, i: nat) returns (j: nat)
    requires i < |b| && b[i] < 128
    ensures j <= i && b[j] < 128 && forall k :: 0 <= k < j ==> b[k] >= 128
  {
    j := 0;
    while b[j] >= 128
      invariant j <= i && forall k :: 0 <= k < j ==> b[k] >= 128
      decreases i - j
    {
      j := j + 1;
    }
  }

  lemma {:induction false} Spelled(s: Schema, b: seq<Byte>)
    requires Decode(s, b).Some?
    ensures Splits(s, b, Decode(s, b).value.0, Decode(s, b).value.1)
    decreases s, 0
  {
    hide Decode, DecodeAll, DecodeInt, Spells, SpellsAll, SpellsInt, Splits;
    match s
    case Slice => SliceSpelled(b);
    case Array(e, n) =>
      UnfoldArray(e, n, b);
      AllSpelled(e, n, [], b);
      ArraySpelled(e, n, b);
    case Opt(e) =>
      UnfoldOptional(e, b);
      if b[0] == 1 { Spelled(e, b[1..]); }
      OptSpelled(e, b);
    case Res(x, y) =>
      UnfoldResult(x, y, b);
      Spelled(if b[0] == 1 then x else y, b[1..]);
      ResSpelled(x, y, b);
    case Pair(x, y) =>
      UnfoldBoth(x, y, b);
      Spelled(x, b);
      var (v, mid) := Decode(x, b).value;
      Spelled(y, mid);
      var (w, rest) := Decode(y, mid).value;
      PairSpelled(x, y, b, v, mid, w, rest);
    case Vec(e) =>
      UnfoldVec(e, b);
      IntSpelled(64, b);
      var (n, mid) := DecodeInt(64, b).value;
      AllSpelled(e, n, [], mid);
      var (ws, rest) := DecodeAll(e, n, [], mid).value;
      assert ws[0..] == ws;
      VecSpelled(e, b, mid, ws, rest);
    case _ => PlainSpelled(s, b);
  }

  lemma {:induction false} ArraySpelled(e: Schema, n: nat, b: seq<Byte>)
    requires DecodeAll(e, n, [], b).Some?
    requires var (ws, rest) := DecodeAll(e, n, [], b).value;
             |ws| == n && |rest| <= |b| && b == b[..|b| - |rest|] + rest && SpellsAll(e, ws[0..], b[..|b| - |rest|])
    ensures var (ws, rest) := DecodeAll(e, n, [], b).value; Splits(Array(e, n), b, List(ws), rest)
  {
    hide DecodeAll, SpellsAll;
    var ws := DecodeAll(e, n, [], b).value.0;
    assert ws[0..] == ws;
  }

  lemma {:induction false} OptSpelled(e: Schema, b: seq<Byte>)
    requires b != [] && b[0] == 1 && Decode(e, b[1..]).Some? ==> Splits(e, b[1..], Decode(e, b[1..]).value.0, Decode(e, b[1..]).value.1)
    requires Decode(Opt(e), b).Some?
    ensures Splits(Opt(e), b, Decode(Opt(e), b).value.0, Decode(Opt(e), b).value.1)
  {
    hide Decode;
    UnfoldOptional(e, b);
    FirstBack(b, Decode(Opt(e), b).value.1);
  }

  lemma {:induction false} ResSpelled(x: Schema, y: Schema, b: seq<Byte>)
    requires b != [] && b[0] <= 1
    requires var r := Decode(if b[0] == 1 then x else y, b[1..]);
             r.Some? && Splits(if b[0] == 1 then x else y, b[1..], r.value.0, r.value.1)
    ensures Decode(Res(x, y), b).Some? && Splits(Res(x, y), b, Decode(Res(x, y), b).value.0, Decode(Res(x, y), b).value.1)
  {
    hide Decode;
    UnfoldResult(x, y, b);
    FirstBack(b, Decode(Res(x, y), b).value.1);
  }

  lemma {:induction false} FirstBack(b: seq<Byte>, rest: seq<Byte>)
    requires b != []
    ensures |rest| < |b| && b[1..] == b[1..][..|b| - 1 - |rest|] + rest ==>
              var c := b[..|b| - |rest|]; b == c + rest && c[0] == b[0] && c[1..] == b[1..][..|b| - 1 - |rest|]
    ensures rest == b[1..] ==> b[..|b| - |rest|] == [b[0]] && b == [b[0]] + rest
  {
  }

  lemma {:induction false} BothBack(b: seq<Byte>, mid: seq<Byte>, rest: seq<Byte>)
    requires |mid| <= |b| && b == b[..|b| - |mid|] + mid
    requires |rest| <= |mid| && mid == mid[..|mid| - |rest|] + rest
    ensures var c, k := b[..|b| - |rest|], |b| - |mid|;
            b == c + rest && c[..k] == b[..k] && c[k..] == mid[..|mid| - |rest|]
  {
  }

  lemma {:induction false} PairSpelled(x: Schema, y: Schema, b: seq<Byte>, v: Value, mid: seq<Byte>, w: Value, rest: seq<Byte>)
    requires Splits(x, b, v, mid) && Splits(y, mid, w, rest)
    ensures Splits(Pair(x, y), b, Both(v, w), rest)
  {
    BothBack(b, mid, rest);
    var c, k := b[..|b| - |rest|], |b| - |mid|;
    assert k <= |c| && Spells(x, v, c[..k]) && Spells(y, w, c[k..]);
  }

  lemma {:induction false} VecSpelled(e: Schema, b: seq<Byte>, mid: seq<Byte>, ws: seq<Value>, rest: seq<Byte>)
    requires |mid| <= |b| && b == b[..|b| - |mid|] + mid && SpellsInt(|ws|, b[..|b| - |mid|])
    requires |rest| <= |mid| && mid == mid[..|mid| - |rest|] + rest && SpellsAll(e, ws, mid[..|mid| - |rest|])
    ensures Splits(Vec(e), b, List(ws), rest)
  {
    hide SpellsInt, SpellsAll;
    BothBack(b, mid, rest);
    var c, k := b[..|b| - |rest|], |b| - |mid|;
    assert k <= |c| && SpellsInt(|ws|, c[..k]) && SpellsAll(e, ws, c[k..]);
  }

  lemma {:induction false} PlainSpelled(s: Schema, b: seq<Byte>)
    requires (s.Unit? || s.Bool? || s.U8? || s.Int?) && Decode(s, b).Some?
    ensures Splits(s, b, Decode(s, b).value.0, Decode(s, b).value.1)
  {
    hide DecodeInt, SpellsInt;
    if s.Unit? {
      assert b[..0] == [] && b == [] + b;
    } else if s.Int? {
      IntSpelled(s.bits, b);
    } else {
      FirstBack(b, b[1..]);
    }
  }

  lemma {:induction false} SliceSpelled(b: seq<Byte>)
    requires Decode(Slice, b).Some?
    ensures Splits(Slice, b, Decode(Slice, b).value.0, Decode(Slice, b).value.1)
  {
    hide DecodeInt, SpellsInt;
    IntSpelled(64, b);
    var (n, mid) := DecodeInt(64, b).value;
    var (v, rest) := Decode(Slice, b).value;
    assert v == Raw(mid[..n]) && rest == mid[n..] && mid == mid[..n] + mid[n..];
    BothBack(b, mid, rest);
    var k := |b| - |mid|;
    assert SpellsInt(|v.bytes|, b[..|b| - |rest|][..k]) && b[..|b| - |rest|][k..] == v.bytes;
  }

  lemma {:induction false} AllSpelled(e: Schema, n: nat, vs: seq<Value>, b: seq<Byte>)
    requires DecodeAll(e, n, vs, b).Some?
    ensures var (ws, rest) := DecodeAll(e, n, vs, b).value;
            && |ws| == |vs| + n && ws[..|vs|] == vs
            && |rest| <= |b| && b == b[..|b| - |rest|] + rest && SpellsAll(e, ws[|vs|..], b[..|b| - |rest|])
    decreases e, n + 1
  {
    hide Decode, Spells;
    if n == 0 {
      assert b[..0] == [] && b == [] + b;
    } else {
      Spelled(e, b);
      var (v, mid) := Decode(e, b).value;
      AllSpelled(e, n - 1, vs + [v], mid);
      var (ws, rest) := DecodeAll(e, n, vs, b).value;
      hide SpellsAll;
      BothBack(b, mid, rest);
      NextItem(vs, v, ws);
      AllSpellsNext(e, ws[|vs|..], b[..|b| - |rest|], |b| - |mid|);
    }
  }

  lemma {:induction false} NextItem(vs: seq<Value>, v: Value, ws: seq<Value>)
    requires |vs| < |ws| && ws[..|vs| + 1] == vs + [v]
    ensures ws[..|vs|] == vs && ws[|vs|..] != [] && ws[|vs|..][0] == v && ws[|vs|..][1..] == ws[|vs| + 1..]
  {
    assert ws[..|vs|] == ws[..|vs| + 1][..|vs|];
    assert ws[|vs|] == ws[..|vs| + 1][|vs|];
  }

  lemma {:induction false} AllSpellsNext(e: Schema, vs: seq<Value>, c: seq<Byte>, k: nat)
    requires vs != [] && k <= |c| && Spells(e, vs[0], c[..k]) && SpellsAll(e, vs[1..], c[k..])
    ensures SpellsAll(e, vs, c)
  {
    hide Spells;
  }

  /** The decoder accepts exactly the bytes that begin with a spelling, answers with the value spelled and leaves what
      follows; so no bytes spell two values. */
  lemma {:induction false} DecodesSpellings(s: Schema, b: seq<Byte>, v: Value, rest: seq<Byte>)
    requires Sound(s)
    ensures Decode(s, b) == Some((v, rest)) <==>
              |rest| <= |b| && b[|b| - |rest|..] == rest && Spells(s, v, b[..|b| - |rest|])
  {
    hide Decode, Spells, Sound;
    if Decode(s, b).Some? {
      Spelled(s, b);
    }
    if |rest| <= |b| && b[|b| - |rest|..] == rest && Spells(s, v, b[..|b| - |rest|]) {
      Reads(s, v, b[..|b| - |rest|], rest);
      assert b == b[..|b| - |rest|] + rest;
    }
  }

  /** An encoding is a spelling. */
  lemma {:induction false} EncodingSpells(s: Schema, v: Value)
    requires Sound(s) && HasType(s, v)
    ensures Spells(s, v, Encode(s, v))
  {
    hide Decode, Spells, Sound, Encode, HasType;
    RoundTrip(s, v, []);
    var c := Encode(s, v);
    assert c + [] == c && c[..|c|] == c && c[|c|..] == [];
    DecodesSpellings(s, c, v, []);
  }

  // ----------------------------------------------------- no spelling is shorter

  lemma {:induction false} DigitsBelow(c: seq<Byte>)
    ensures Digits(c) < Pow128(|c|)
  {
    if c == [] {
    } else {
      DigitsBelow(c[1..]);
    }
  }

  lemma {:induction false} EncodeIntShort(n: nat, k: nat)
    requires 0 < k && n < Pow128(k)
    ensures |EncodeInt(n)| <= k
    decreases k
  {
    if n >= 128 { EncodeIntShort(n / 128, k - 1); }
  }

  lemma {:induction false} IntShortest(n: nat, c: seq<Byte>)
    requires SpellsInt(n, c)
    ensures n < U64 && |EncodeInt(n)| <= |c|
  {
    hide Digits, EncodeInt, Pow128;
    DigitsBelow(c);
    EncodeIntShort(n, |c|);
  }

  /** Whatever spells a value of the type, the encoder writes no more bytes for it. */
  lemma {:induction false} EncodingIsShortest(s: Schema, v: Value, c: seq<Byte>)
    requires Spells(s, v, c)
    ensures HasType(s, v) && |Encode(s, v)| <= |c|
    decreases s, 0
  {
    hide EncodeInt, EncodeAll, AllHaveType, SpellsInt, SpellsAll;
    match s
    case Int(_) => IntShortest(v.n, c);
    case Slice =>
      var k: nat :| k <= |c| && SpellsInt(|v.bytes|, c[..k]) && c[k..] == v.bytes;
      IntShortest(|v.bytes|, c[..k]);
    case Array(e, _) => AllShortest(e, v.items, c);
    case Opt(e) => if v.Present? { EncodingIsShortest(e, v.inner, c[1..]); }
    case Res(x, y) => if v.Good? { EncodingIsShortest(x, v.value, c[1..]); } else { EncodingIsShortest(y, v.error, c[1..]); }
    case Pair(x, y) =>
      var k: nat :| k <= |c| && Spells(x, v.left, c[..k]) && Spells(y, v.right, c[k..]);
      EncodingIsShortest(x, v.left, c[..k]);
      EncodingIsShortest(y, v.right, c[k..]);
    case Vec(e) =>
      var k: nat :| k <= |c| && SpellsInt(|v.items|, c[..k]) && SpellsAll(e, v.items, c[k..]);
      IntShortest(|v.items|, c[..k]);
      AllShortest(e, v.items, c[k..]);
    case _ =>
  }

  lemma {:induction false} AllShortest(e: Schema, vs: seq<Value>, c: seq<Byte>)
    requires SpellsAll(e, vs, c)
    ensures AllHaveType(e, vs) && |EncodeAll(e, vs)| <= |c|
    decreases e, |vs| + 1
  {
    if vs == [] {
    } else {
      var k: nat :| k <= |c| && Spells(e, vs[0], c[..k]) && SpellsAll(e, vs[1..], c[k..]);
      hide Spells, SpellsAll, Encode, HasType;
      EncodingIsShortest(e, vs[0], c[..k]);
      AllShortest(e, vs[1..], c[k..]);
    }
  }
}
