/** Keys that compare byte by byte as the values they encode: integers of each width, signed and unsigned,
    and tuples of those and of terminated strings. */
module OrderedKeys {
  import opened TableSchema

  /** bytes.Compare(a, b) < 0. */
  predicate Less(a: Bytes, b: Bytes)
  {
    b != [] && (a == [] || a[0] < b[0] || (a[0] == b[0] && Less(a[1..], b[1..])))
  }

  lemma {:induction false} NotLess(a: Bytes)
    ensures !Less(a, a)
  {
    if a != [] {
      NotLess(a[1..]);
    }
  }

  lemma {:induction false} LessChain(a: Bytes, b: Bytes, c: Bytes)
    requires Less(a, b) && Less(b, c)
    ensures Less(a, c)
  {
    if a != [] && a[0] == b[0] == c[0] {
      LessChain(a[1..], b[1..], c[1..]);
    }
  }

  lemma {:induction false} LessOrGreater(a: Bytes, b: Bytes)
    ensures a == b || Less(a, b) || Less(b, a)
  {
    if a != [] && b != [] && a[0] == b[0] {
      LessOrGreater(a[1..], b[1..]);
      assert a == [a[0]] + a[1..] && b == [b[0]] + b[1..];
    }
  }

  /** The order of bytes: up to some place the two are the same, and there the first has ended or has the smaller
      byte. */
  lemma {:induction false} LessIff(a: Bytes, b: Bytes)
    ensures Less(a, b) <==> exists i ::
      0 <= i <= |a| && i < |b| && a[..i] == b[..i] && (i == |a| || a[i] < b[i])
  {
    if a == [] || b == [] {
      assert b != [] ==> a[..0] == b[..0];
    } else {
      LessIff(a[1..], b[1..]);
      if Less(a, b) {
        if a[0] == b[0] {
          var i :|
            0 <= i < |a| && i < |b| - 1 && a[1..][..i] == b[1..][..i] && (i == |a| - 1 || a[1 + i] < b[1 + i]);
          assert a[..i + 1] == [a[0]] + a[1..][..i] && b[..i + 1] == [b[0]] + b[1..][..i];
        } else {
          assert a[..0] == b[..0];
        }
      }
      if i :| 0 <= i <= |a| && i < |b| && a[..i] == b[..i] && (i == |a| || a[i] < b[i]) {
        if i > 0 {
          assert a[0] == a[..i][0] == b[..i][0] == b[0];
          assert a[1..][..i - 1] == a[..i][1..] == b[..i][1..] == b[1..][..i - 1];
        }
      }
    }
  }

  /** The least of some keys. */
  predicate First(key: Bytes, keys: set<Bytes>)
  {
    key in keys && forall other :: other in keys ==> other == key || Less(key, other)
  }

  lemma {:induction false} HasFirst(keys: set<Bytes>)
    requires keys != {}
    ensures exists key :: First(key, keys)
  {
    var some :| some in keys;
    var rest := keys - {some};
    if rest == {} {
      assert forall other :: other in keys ==> other == some || other in rest;
      assert First(some, keys);
    } else {
      HasFirst(rest);
      var least :| First(least, rest);
      LessOrGreater(some, least);
      if Less(some, least) {
        forall other | other in keys
          ensures other == some || Less(some, other)
        {
          assert other == some || other in rest;
          if other != some && other != least {
            LessChain(some, least, other);
          }
        }
        assert First(some, keys);
      } else {
        forall other | other in keys
          ensures other == least || Less(least, other)
        {
          assert other == some || other in rest;
        }
        assert First(least, keys);
      }
    }
  }

  // ---------------------------------------------------------------- integers

  /** The widths of the integer types, in bytes. */
  predicate Width(size: nat)
  {
    size == 1 || size == 2 || size == 4 || size == 8
  }

  function Pow256(n: nat): (p: nat)
    ensures p > 0
  {
    if n == 0 then 1 else 256 * Pow256(n - 1)
  }

  /** The low `size` bytes of a number, most significant first. */
  function BigEndian(n: nat, size: nat): (b: Bytes)
    ensures |b| == size
  {
    if size == 0 then [] else BigEndian(n / 256, size - 1) + [n % 256]
  }

  /** 2^(8 * size - 1), the weight of the sign bit. */
  function Half(size: nat): nat
    requires size > 0
  {
    128 * Pow256(size - 1)
  }

  function EncodeUint(val: nat, size: nat): (key: Bytes)
    requires Width(size)
    ensures |key| == size
  {
    BigEndian(val, size)
  }

  /** The sign bit is flipped and the result truncated to the width: modulo 2^(8 * size) that is adding the
      weight of the sign bit, see FlipIsAdd. */
  function EncodeInt(val: int, size: nat): (key: Bytes)
    requires Width(size)
    ensures |key| == size
  {
    BigEndian((val + Half(size)) % Pow256(size), size)
  }

  /** `val ^ int64(-1 << (size*8 - 1))`, truncated to the width, is the sum of val and the sign bit. */
  lemma FlipIsAdd(x: bv64)
    ensures (x ^ 0xffff_ffff_ffff_ff80) & 0xff == (x + 0x80) & 0xff
    ensures (x ^ 0xffff_ffff_ffff_8000) & 0xffff == (x + 0x8000) & 0xffff
    ensures (x ^ 0xffff_ffff_8000_0000) & 0xffff_ffff == (x + 0x8000_0000) & 0xffff_ffff
    ensures x ^ 0x8000_0000_0000_0000 == x + 0x8000_0000_0000_0000
  {
  }

  lemma {:induction false} LessAppend(a: Bytes, b: Bytes, x: Byte, y: Byte)
    requires |a| == |b|
    ensures Less(a + [x], b + [y]) <==> Less(a, b) || (a == b && x < y)
  {
    if a != [] {
      assert (a + [x])[1..] == a[1..] + [x] && (b + [y])[1..] == b[1..] + [y];
      LessAppend(a[1..], b[1..], x, y);
      assert a == [a[0]] + a[1..] && b == [b[0]] + b[1..];
    }
  }

  lemma DivideBound(n: nat, p: nat)
    requires n < 256 * p
    ensures n / 256 < p
  {
  }

  /** Numbers that fit compare as their bytes do. */
  lemma {:induction false} BigEndianOrder(n: nat, m: nat, size: nat)
    requires n < Pow256(size) && m < Pow256(size)
    ensures Less(BigEndian(n, size), BigEndian(m, size)) <==> n < m
    ensures BigEndian(n, size) == BigEndian(m, size) <==> n == m
  {
    if size > 0 {
      DivideBound(n, Pow256(size - 1));
      DivideBound(m, Pow256(size - 1));
      BigEndianOrder(n / 256, m / 256, size - 1);
      var a, b := BigEndian(n / 256, size - 1), BigEndian(m / 256, size - 1);
      LessAppend(a, b, n % 256, m % 256);
      assert BigEndian(n, size)[..size - 1] == a && BigEndian(m, size)[..size - 1] == b;
      assert BigEndian(n, size)[size - 1] == n % 256 && BigEndian(m, size)[size - 1] == m % 256;
    }
  }

  lemma UintOrder(x: nat, y: nat, size: nat)
    requires Width(size) && x < Pow256(size) && y < Pow256(size)
    ensures Less(EncodeUint(x, size), EncodeUint(y, size)) <==> x < y
    ensures EncodeUint(x, size) == EncodeUint(y, size) <==> x == y
  {
    BigEndianOrder(x, y, size);
  }

  predicate FitsInt(x: int, size: nat)
    requires size > 0
  {
    0 - (Half(size) as int) <= x < Half(size)
  }

  lemma Biased(x: int, size: nat)
    requires Width(size) && FitsInt(x, size)
    ensures (x + Half(size)) % Pow256(size) == x + Half(size) < Pow256(size)
  {
    assert Pow256(size) == 256 * Pow256(size - 1);
    Small(x + Half(size), Pow256(size));
  }

  lemma Small(n: nat, p: nat)
    requires n < p
    ensures n % p == n
  {
  }

  /** Signed numbers of a width compare as their keys do, and different numbers have different keys. */
  lemma IntOrder(x: int, y: int, size: nat)
    requires Width(size) && FitsInt(x, size) && FitsInt(y, size)
    ensures Less(EncodeInt(x, size), EncodeInt(y, size)) <==> x < y
    ensures EncodeInt(x, size) == EncodeInt(y, size) <==> x == y
  {
    Biased(x, size);
    Biased(y, size);
    BigEndianOrder(x + Half(size), y + Half(size), size);
  }

  // ---------------------------------------------------------------- tuples

  datatype Field = Text(text: Bytes) | Int(signed: int, size: nat) | Uint(unsigned: nat, size: nat)

  /** A string has no NUL, a number fits its width. */
  predicate FieldOk(f: Field)
  {
    match f
    case Text(s) => 0 !in s
    case Int(x, size) => Width(size) && FitsInt(x, size)
    case Uint(x, size) => Width(size) && x < Pow256(size)
  }

  /** A string is closed by a NUL; a number has its fixed width. */
  function FieldKey(f: Field): Bytes
    requires FieldOk(f)
  {
    match f
    case Text(s) => s + [0]
    case Int(x, size) => EncodeInt(x, size)
    case Uint(x, size) => EncodeUint(x, size)
  }

  predicate SameKind(f: Field, g: Field)
  {
    match f
    case Text(_) => g.Text?
    case Int(_, size) => g.Int? && g.size == size
    case Uint(_, size) => g.Uint? && g.size == size
  }

  predicate FieldLess(f: Field, g: Field)
    requires SameKind(f, g)
  {
    match f
    case Text(s) => Less(s, g.text)
    case Int(x, _) => x < g.signed
    case Uint(x, _) => x < g.unsigned
  }

  /** Neither is a prefix of the other: some byte decides. */
  predicate Differ(a: Bytes, b: Bytes)
  {
    a != [] && b != [] && (a[0] != b[0] || Differ(a[1..], b[1..]))
  }

  lemma {:induction false} DifferMore(a: Bytes, b: Bytes, x: Bytes, y: Bytes)
    requires Differ(a, b)
    ensures Differ(a + x, b + y) && (Less(a + x, b + y) <==> Less(a, b))
  {
    if a[0] == b[0] {
      assert (a + x)[1..] == a[1..] + x && (b + y)[1..] == b[1..] + y;
      DifferMore(a[1..], b[1..], x, y);
    }
  }

  lemma {:induction false} SameMore(a: Bytes, x: Bytes, y: Bytes)
    ensures Less(a + x, a + y) <==> Less(x, y)
    ensures Differ(a + x, a + y) <==> Differ(x, y)
  {
    if a == [] {
      assert a + x == x && a + y == y;
    } else {
      assert (a + x)[1..] == a[1..] + x && (a + y)[1..] == a[1..] + y;
      SameMore(a[1..], x, y);
    }
  }

  lemma {:induction false} DifferPrefix(a: Bytes, b: Bytes)
    requires Differ(a, b)
    ensures !(a <= b) && !(b <= a) && a != b
  {
    if a[0] == b[0] {
      DifferPrefix(a[1..], b[1..]);
      PrefixTail(a, b);
      PrefixTail(b, a);
    }
  }

  lemma PrefixTail(a: Bytes, b: Bytes)
    requires a != [] && b != [] && a[0] == b[0]
    ensures a <= b ==> a[1..] <= b[1..]
  {
    if a <= b {
      assert forall i :: 0 <= i < |a| - 1 ==> a[1..][i] == b[1..][i];
    }
  }

  lemma {:induction false} SameLengthDiffer(a: Bytes, b: Bytes)
    requires |a| == |b| && a != b
    ensures Differ(a, b)
  {
    if a[0] == b[0] {
      assert a == [a[0]] + a[1..] && b == [b[0]] + b[1..];
      SameLengthDiffer(a[1..], b[1..]);
    }
  }

  /** The closing NUL decides where one string ends first, as it must. */
  lemma {:induction false} TextDiffer(s: Bytes, t: Bytes)
    requires 0 !in s && 0 !in t && s != t
    ensures Differ(s + [0], t + [0]) && (Less(s + [0], t + [0]) <==> Less(s, t))
  {
    if s == [] {
      assert t[0] in t;
    } else if t == [] {
      assert s[0] in s;
    } else if s[0] == t[0] {
      assert s == [s[0]] + s[1..] && t == [t[0]] + t[1..];
      assert (s + [0])[1..] == s[1..] + [0] && (t + [0])[1..] == t[1..] + [0];
      TextDiffer(s[1..], t[1..]);
    } else {
      assert s[0] in s && t[0] in t;
    }
  }

  lemma FieldDiffer(f: Field, g: Field)
    requires FieldOk(f) && FieldOk(g) && SameKind(f, g) && f != g
    ensures Differ(FieldKey(f), FieldKey(g)) && (Less(FieldKey(f), FieldKey(g)) <==> FieldLess(f, g))
  {
    match f
    case Text(s) =>
      TextDiffer(s, g.text);
    case Int(x, size) =>
      IntOrder(x, g.signed, size);
      SameLengthDiffer(FieldKey(f), FieldKey(g));
    case Uint(x, size) =>
      UintOrder(x, g.unsigned, size);
      SameLengthDiffer(FieldKey(f), FieldKey(g));
  }

  predicate TupleOk(t: seq<Field>)
  {
    forall i :: 0 <= i < |t| ==> FieldOk(t[i])
  }

  function TupleKey(t: seq<Field>): Bytes
    requires TupleOk(t)
  {
    if t == [] then [] else FieldKey(t[0]) + TupleKey(t[1..])
  }

  predicate SameShape(t: seq<Field>, u: seq<Field>)
  {
    |t| == |u| && forall i :: 0 <= i < |t| ==> SameKind(t[i], u[i])
  }

  /** Tuples compare by the first field that differs. */
  predicate TupleLess(t: seq<Field>, u: seq<Field>)
    requires SameShape(t, u)
  {
    t != [] && if t[0] != u[0] then FieldLess(t[0], u[0]) else TupleLess(t[1..], u[1..])
  }

  /** Compound keys compare exactly as their tuples; different tuples have keys of which neither is a prefix
      of the other. */
  lemma {:induction false} TupleOrder(t: seq<Field>, u: seq<Field>)
    requires TupleOk(t) && TupleOk(u) && SameShape(t, u)
    ensures Less(TupleKey(t), TupleKey(u)) <==> TupleLess(t, u)
    ensures t != u ==> !(TupleKey(t) <= TupleKey(u)) && !(TupleKey(u) <= TupleKey(t))
  {
    TupleDiffer(t, u);
    if t != u {
      DifferPrefix(TupleKey(t), TupleKey(u));
    } else {
      NotLess(TupleKey(t));
      NotTupleLess(t);
    }
  }

  lemma {:induction false} NotTupleLess(t: seq<Field>)
    requires SameShape(t, t)
    ensures !TupleLess(t, t)
  {
    if t != [] {
      NotTupleLess(t[1..]);
    }
  }

  lemma {:induction false} TupleDiffer(t: seq<Field>, u: seq<Field>)
    requires TupleOk(t) && TupleOk(u) && SameShape(t, u)
    ensures t != u ==> Differ(TupleKey(t), TupleKey(u)) && (Less(TupleKey(t), TupleKey(u)) <==> TupleLess(t, u))
  {
    if t != u {
      assert t == [t[0]] + t[1..] && u == [u[0]] + u[1..];
      if t[0] != u[0] {
        FieldDiffer(t[0], u[0]);
        DifferMore(FieldKey(t[0]), FieldKey(u[0]), TupleKey(t[1..]), TupleKey(u[1..]));
      } else {
        TupleDiffer(t[1..], u[1..]);
        SameMore(FieldKey(t[0]), TupleKey(t[1..]), TupleKey(u[1..]));
      }
    }
  }

  // ---------------------------------------------------------------- what the bytes are

  /** The number that some bytes spell, most significant first. */
  function ValueOf(b: Bytes): nat
  {
    if b == [] then 0 else 256 * ValueOf(b[..|b| - 1]) + b[|b| - 1]
  }

  lemma {:induction false} BigEndianValue(n: nat, size: nat)
    requires n < Pow256(size)
    ensures ValueOf(BigEndian(n, size)) == n
  {
    if size > 0 {
      DivideBound(n, Pow256(size - 1));
      BigEndianValue(n / 256, size - 1);
      assert BigEndian(n, size)[..size - 1] == BigEndian(n / 256, size - 1);
    }
  }

  /** The ranges of the integer types, and the weights of their sign bits. */
  lemma Ranges()
    ensures Pow256(1) == 0x100 && Half(1) == 0x80
    ensures Pow256(2) == 0x1_0000 && Half(2) == 0x8000
    ensures Pow256(4) == 0x1_0000_0000 && Half(4) == 0x8000_0000
    ensures Pow256(8) == 0x1_0000_0000_0000_0000 && Half(8) == 0x8000_0000_0000_0000
    ensures forall size :: Width(size) <==> size in {1, 2, 4, 8}
    ensures forall x :: FitsInt(x, 1) <==> -0x80 <= x < 0x80
    ensures forall x :: FitsInt(x, 2) <==> -0x8000 <= x < 0x8000
    ensures forall x :: FitsInt(x, 4) <==> -0x8000_0000 <= x < 0x8000_0000
    ensures forall x :: FitsInt(x, 8) <==> -0x8000_0000_0000_0000 <= x < 0x8000_0000_0000_0000
  {
    assert Pow256(3) == 0x100_0000 && Pow256(5) == 0x100_0000_0000;
    assert Pow256(6) == 0x1_0000_0000_0000 && Pow256(7) == 0x100_0000_0000_0000;
  }

  lemma IntValue(x: int, size: nat)
    requires Width(size) && FitsInt(x, size)
    ensures ValueOf(EncodeInt(x, size)) == x + Half(size)
  {
    Biased(x, size);
    BigEndianValue(x + Half(size), size);
  }

  datatype Kind = TextKind | IntKind(size: nat) | UintKind(size: nat)

  datatype Parsed = Parsed(fields: seq<Field>, rest: Bytes)

  function KindOf(f: Field): Kind
  {
    match f
    case Text(_) => TextKind
    case Int(_, size) => IntKind(size)
    case Uint(_, size) => UintKind(size)
  }

  function KindsOf(t: seq<Field>): (kinds: seq<Kind>)
    ensures |kinds| == |t| && forall i :: 0 <= i < |t| ==> kinds[i] == KindOf(t[i])
  {
    seq(|t|, i requires 0 <= i < |t| => KindOf(t[i]))
  }

  /** The bytes before the first NUL. */
  function UpToNul(b: Bytes): (text: Bytes)
    ensures text <= b
  {
    if b == [] || b[0] == 0 then [] else [b[0]] + UpToNul(b[1..])
  }

  /** How much of the bytes belongs to the first field: a text and its NUL, or the width of a number. */
  function FirstSize(kind: Kind, b: Bytes): (n: nat)
    ensures n <= |b|
  {
    var n := if kind.TextKind? then |UpToNul(b)| + 1 else kind.size;
    if n <= |b| then n else |b|
  }

  function FirstField(kind: Kind, b: Bytes): Field
  {
    match kind
    case TextKind => Text(UpToNul(b))
    case IntKind(size) => Int(ValueOf(b[..FirstSize(kind, b)]) - (if size == 0 then 0 else Half(size)), size)
    case UintKind(size) => Uint(ValueOf(b[..FirstSize(kind, b)]), size)
  }

  /** Reads fields of the given kinds off some bytes, one after the other. */
  function Parse(kinds: seq<Kind>, b: Bytes): Parsed
  {
    if kinds == [] then Parsed([], b) else
      var more := Parse(kinds[1..], b[FirstSize(kinds[0], b)..]);
      Parsed([FirstField(kinds[0], b)] + more.fields, more.rest)
  }

  /** A text takes its own bytes and one NUL, a number its width. */
  function SizeOf(f: Field): nat
  {
    if f.Text? then |f.text| + 1 else f.size
  }

  function SizesOf(t: seq<Field>): nat
  {
    if t == [] then 0 else SizeOf(t[0]) + SizesOf(t[1..])
  }

  lemma {:induction false} NulEnds(s: Bytes, more: Bytes)
    requires 0 !in s
    ensures UpToNul(s + [0] + more) == s
  {
    if s != [] {
      assert s[0] in s;
      assert (s + [0] + more)[1..] == s[1..] + [0] + more;
      NulEnds(s[1..], more);
    } else {
      assert s + [0] + more == [0] + more;
    }
  }

  lemma FieldParsed(f: Field, more: Bytes)
    requires FieldOk(f)
    ensures |FieldKey(f)| == SizeOf(f) == FirstSize(KindOf(f), FieldKey(f) + more)
    ensures FirstField(KindOf(f), FieldKey(f) + more) == f
  {
    hide EncodeInt, EncodeUint, ValueOf, Pow256, Half, UpToNul, FitsInt;
    var b := FieldKey(f) + more;
    match f
    case Text(s) =>
      NulEnds(s, more);
      assert |b| >= |s| + 1;
    case Int(x, size) =>
      assert b[..size] == FieldKey(f);
      IntValue(x, size);
    case Uint(x, size) =>
      assert b[..size] == FieldKey(f);
      UintValue(x, size);
  }

  lemma UintValue(x: nat, size: nat)
    requires Width(size) && x < Pow256(size)
    ensures ValueOf(EncodeUint(x, size)) == x
  {
    BigEndianValue(x, size);
  }

  /** The key of a tuple can be read back field by field, and nothing is left over; so it has exactly the bytes that its
      fields take. */
  lemma {:induction false} KeyParsed(t: seq<Field>, more: Bytes)
    requires TupleOk(t)
    ensures |TupleKey(t)| == SizesOf(t) && Parse(KindsOf(t), TupleKey(t) + more) == Parsed(t, more)
  {
    hide FieldKey, FieldOk, FirstSize, FirstField;
    if t != [] {
      var first, rest := FieldKey(t[0]), TupleKey(t[1..]);
      FieldParsed(t[0], rest + more);
      KeyParsed(t[1..], more);
      assert first + rest + more == first + (rest + more);
      assert (first + (rest + more))[|first|..] == rest + more;
      assert KindsOf(t)[1..] == KindsOf(t[1..]);
      assert [t[0]] + t[1..] == t;
    } else {
      assert TupleKey(t) + more == more;
    }
  }

  datatype Sub = Absent | Present(field: Field)

  /** The key of a compound index: the fields one after the other. A missing field ends the key where
      missing values are allowed, and otherwise there is none. */
  method CompoundKey(subs: seq<Sub>, allowMissing: bool) returns (ok: bool, key: Bytes, ghost fields: seq<Field>)
    requires forall i :: 0 <= i < |subs| && subs[i].Present? ==> FieldOk(subs[i].field)
    ensures ok <==> allowMissing || forall i :: 0 <= i < |subs| ==> subs[i].Present?
    ensures ok ==> |fields| <= |subs| && (|fields| < |subs| ==> subs[|fields|].Absent?)
    ensures ok ==> forall i :: 0 <= i < |fields| ==> subs[i] == Present(fields[i])
    ensures ok ==> TupleOk(fields) && key == TupleKey(fields)
    ensures ok ==> |key| == SizesOf(fields) && Parse(KindsOf(fields), key) == Parsed(fields, [])
  {
    key, fields := [], [];
    var i := 0;
    while i < |subs|
      invariant i == |fields| <= |subs| && TupleOk(fields) && key == TupleKey(fields)
      invariant forall j :: 0 <= j < i ==> subs[j] == Present(fields[j])
    {
      if subs[i].Absent? {
        KeyParsed(fields, []);
        assert key + [] == key;
        return allowMissing, key, fields;
      }
      KeyMore(fields, subs[i].field);
      key := key + FieldKey(subs[i].field);
      fields := fields + [subs[i].field];
      i := i + 1;
    }
    KeyParsed(fields, []);
    assert key + [] == key;
    ok := true;
  }

  lemma {:induction false} KeyMore(t: seq<Field>, f: Field)
    requires TupleOk(t) && FieldOk(f)
    ensures TupleOk(t + [f]) && TupleKey(t + [f]) == TupleKey(t) + FieldKey(f)
  {
    if t == [] {
      assert [f][1..] == [];
    } else {
      assert (t + [f])[1..] == t[1..] + [f];
      KeyMore(t[1..], f);
    }
  }
}
