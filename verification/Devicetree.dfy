/** The search for the memory node of a flattened devicetree (lab2/kern/driver/dtb.c), against section 5.4 of the
    Devicetree Specification. Addresses are offsets from the start of the blob, which is aligned to eight bytes. */
module Devicetree {
  import opened Wrappers

  type Bytes = seq<bv8>

  const FDT_BEGIN_NODE: bv32 := 1
  const FDT_END_NODE: bv32 := 2
  const FDT_PROP: bv32 := 3
  const FDT_NOP: bv32 := 4

  /** "memory" and "reg" in ASCII */
  const MEMORY: Bytes := [0x6d, 0x65, 0x6d, 0x6f, 0x72, 0x79]
  const REG: Bytes := [0x72, 0x65, 0x67]

  // ---------- Byte order ----------

  /** fdt32_to_cpu */
  function Fdt32ToCpu(x: bv32): bv32 {
    ((x & 0xff) << 24) | (((x >> 8) & 0xff) << 16) | (((x >> 16) & 0xff) << 8) | ((x >> 24) & 0xff)
  }

  function Low(x: bv64): bv32 {
    (x & 0xffffffff) as bv32
  }

  function High(x: bv64): bv32 {
    (x >> 32) as bv32
  }

  function Join(high: bv32, low: bv32): bv64 {
    ((high as bv64) << 32) | (low as bv64)
  }

  /** fdt64_to_cpu */
  function Fdt64ToCpu(x: bv64): bv64 {
    Join(Fdt32ToCpu(Low(x)), Fdt32ToCpu(High(x)))
  }

  function Word(b0: bv8, b1: bv8, b2: bv8, b3: bv8): bv32 {
    (b0 as bv32) | ((b1 as bv32) << 8) | ((b2 as bv32) << 16) | ((b3 as bv32) << 24)
  }

  /** A word as the little-endian processor loads it. */
  function Load32(m: Bytes, p: nat): bv32
    requires p + 4 <= |m|
  {
    Word(m[p], m[p + 1], m[p + 2], m[p + 3])
  }

  /** A header or length field. */
  function Number(m: Bytes, p: nat): nat
    requires p + 4 <= |m|
  {
    Fdt32ToCpu(Load32(m, p)) as nat
  }

  function Load64(m: Bytes, p: nat): bv64
    requires p + 8 <= |m|
  {
    Join(Load32(m, p + 4), Load32(m, p))
  }

  /** A word as the blob means it: the most significant byte first. */
  function Big32(m: Bytes, p: nat): bv32
    requires p + 4 <= |m|
  {
    Word(m[p + 3], m[p + 2], m[p + 1], m[p])
  }

  function Big64(m: Bytes, p: nat): bv64
    requires p + 8 <= |m|
  {
    Join(Big32(m, p), Big32(m, p + 4))
  }

  lemma SwapWord(b0: bv8, b1: bv8, b2: bv8, b3: bv8)
    ensures Fdt32ToCpu(Word(b0, b1, b2, b3)) == Word(b3, b2, b1, b0)
  {
  }

  lemma Halves(high: bv32, low: bv32)
    ensures Low(Join(high, low)) == low && High(Join(high, low)) == high
  {
  }

  /** The number that bytes stand for, the most significant first. */
  function BigEndian(bytes: Bytes): nat {
    if bytes == [] then 0 else 0x100 * BigEndian(bytes[..|bytes| - 1]) + bytes[|bytes| - 1] as nat
  }

  /** The number that bytes stand for, the least significant first. */
  function LittleEndian(bytes: Bytes): nat {
    if bytes == [] then 0 else bytes[0] as nat + 0x100 * LittleEndian(bytes[1..])
  }

  lemma Beside8(high: bv8, low: bv8)
    ensures (((high as bv16) << 8) | (low as bv16)) as nat == 0x100 * (high as nat) + low as nat
  {
  }

  lemma Beside16(high: bv16, low: bv16)
    ensures (((high as bv32) << 16) | (low as bv32)) as nat == 0x1_0000 * (high as nat) + low as nat
  {
  }

  lemma Beside32(high: bv32, low: bv32)
    ensures (((high as bv64) << 32) | (low as bv64)) as nat == 0x1_0000_0000 * (high as nat) + low as nat
  {
  }

  lemma JoinIs(high: bv32, low: bv32)
    ensures Join(high, low) == ((high as bv64) << 32) | (low as bv64)
  {
  }

  lemma JoinValue(high: bv32, low: bv32)
    ensures Join(high, low) as nat == 0x1_0000_0000 * (high as nat) + low as nat
  {
    hide *;
    JoinIs(high, low);
    Beside32(high, low);
  }

  lemma WordHalves(b0: bv8, b1: bv8, b2: bv8, b3: bv8)
    ensures Word(b0, b1, b2, b3)
         == (((((b3 as bv16) << 8) | (b2 as bv16)) as bv32) << 16) | ((((b1 as bv16) << 8) | (b0 as bv16)) as bv32)
  {
  }

  lemma WordValue(b0: bv8, b1: bv8, b2: bv8, b3: bv8)
    ensures Word(b0, b1, b2, b3) as nat
         == b0 as nat + 0x100 * (b1 as nat) + 0x1_0000 * (b2 as nat) + 0x100_0000 * (b3 as nat)
  {
    WordHalves(b0, b1, b2, b3);
    hide Word;
    Beside8(b3, b2);
    Beside8(b1, b0);
    Beside16(((b3 as bv16) << 8) | (b2 as bv16), ((b1 as bv16) << 8) | (b0 as bv16));
  }

  lemma BigEndianOf4(b: Bytes)
    requires |b| == 4
    ensures BigEndian(b)
         == 0x100_0000 * (b[0] as nat) + 0x1_0000 * (b[1] as nat) + 0x100 * (b[2] as nat) + b[3] as nat
  {
    assert b[..3][..2] == b[..2] && b[..2][..1] == b[..1];
    assert BigEndian(b[..1]) == b[0] as nat;
    assert BigEndian(b[..2]) == 0x100 * (b[0] as nat) + b[1] as nat;
    assert BigEndian(b[..3]) == 0x1_0000 * (b[0] as nat) + 0x100 * (b[1] as nat) + b[2] as nat;
  }

  lemma LittleEndianOf4(b: Bytes)
    requires |b| == 4
    ensures LittleEndian(b)
         == b[0] as nat + 0x100 * (b[1] as nat) + 0x1_0000 * (b[2] as nat) + 0x100_0000 * (b[3] as nat)
  {
    assert b[1..][1..] == b[2..] && b[2..][1..] == b[3..] && b[3..][1..] == [];
    assert LittleEndian(b[3..]) == b[3] as nat;
    assert LittleEndian(b[2..]) == b[2] as nat + 0x100 * (b[3] as nat);
    assert LittleEndian(b[1..]) == b[1] as nat + 0x100 * (b[2] as nat) + 0x1_0000 * (b[3] as nat);
  }

  /** Four more bytes behind. */
  lemma BigEndianMore(a: Bytes, b: Bytes)
    requires |b| == 4
    ensures BigEndian(a + b) == 0x1_0000_0000 * BigEndian(a) + BigEndian(b)
  {
    BigEndianOf4(b);
    var s := a + b;
    assert s[..|a| + 3] == a + b[..3] && (a + b[..3])[..|a| + 2] == a + b[..2];
    assert (a + b[..2])[..|a| + 1] == a + b[..1] && (a + b[..1])[..|a|] == a;
    assert BigEndian(a + b[..1]) == 0x100 * BigEndian(a) + b[0] as nat;
    assert BigEndian(a + b[..2]) == 0x100 * BigEndian(a + b[..1]) + b[1] as nat;
    assert BigEndian(a + b[..3]) == 0x100 * BigEndian(a + b[..2]) + b[2] as nat;
  }

  /** A load gives the little-endian number. */
  lemma LoadValue(m: Bytes, p: nat)
    requires p + 4 <= |m|
    ensures Load32(m, p) as nat == LittleEndian(m[p..p + 4])
  {
    WordValue(m[p], m[p + 1], m[p + 2], m[p + 3]);
    hide Word;
    LittleEndianOf4(m[p..p + 4]);
  }

  lemma Big32Value(m: Bytes, p: nat)
    requires p + 4 <= |m|
    ensures Big32(m, p) as nat == BigEndian(m[p..p + 4])
  {
    WordValue(m[p + 3], m[p + 2], m[p + 1], m[p]);
    hide Word;
    BigEndianOf4(m[p..p + 4]);
  }

  lemma Big64Value(m: Bytes, p: nat)
    requires p + 8 <= |m|
    ensures Big64(m, p) as nat == BigEndian(m[p..p + 8])
  {
    JoinValue(Big32(m, p), Big32(m, p + 4));
    Big32Value(m, p);
    Big32Value(m, p + 4);
    assert m[p..p + 8] == m[p..p + 4] + m[p + 4..p + 4 + 4];
    hide Join, Big32, BigEndian;
    BigEndianMore(m[p..p + 4], m[p + 4..p + 4 + 4]);
  }

  /** Loading and swapping gives the big-endian number of the four or eight bytes. */
  lemma SwapReads(m: Bytes, p: nat)
    ensures p + 4 <= |m| ==> Fdt32ToCpu(Load32(m, p)) as nat == BigEndian(m[p..p + 4])
    ensures p + 8 <= |m| ==> Fdt64ToCpu(Load64(m, p)) as nat == BigEndian(m[p..p + 8])
  {
    SwapIsBig(m, p);
    hide Fdt32ToCpu, Load32, Fdt64ToCpu, Load64, Big32, Big64, BigEndian;
    if p + 4 <= |m| {
      Big32Value(m, p);
    }
    if p + 8 <= |m| {
      Big64Value(m, p);
    }
  }

  lemma SwapIsBig(m: Bytes, p: nat)
    ensures p + 4 <= |m| ==> Fdt32ToCpu(Load32(m, p)) == Big32(m, p)
    ensures p + 8 <= |m| ==> Fdt64ToCpu(Load64(m, p)) == Big64(m, p)
  {
    hide Fdt32ToCpu, Word, Low, High, Join;
    if p + 4 <= |m| {
      SwapWord(m[p], m[p + 1], m[p + 2], m[p + 3]);
    }
    if p + 8 <= |m| {
      SwapWord(m[p + 4], m[p + 5], m[p + 6], m[p + 7]);
      Halves(Load32(m, p + 4), Load32(m, p));
    }
  }

  // ---------- Strings ----------

  predicate HasAt(m: Bytes, p: nat, x: Bytes) {
    p + |x| <= |m| && m[p..p + |x|] == x
  }

  /** A NUL-terminated string. */
  predicate StringAt(m: Bytes, p: nat, name: Bytes) {
    HasAt(m, p, name + [0]) && 0 !in name
  }

  /** strlen */
  method StrLen(m: Bytes, p: nat, ghost name: Bytes) returns (n: nat)
    requires StringAt(m, p, name)
    ensures n == |name|
  {
    ghost var s := name + [0];
    assert forall k | 0 <= k < |s| :: m[p + k] == m[p..p + |s|][k] == s[k];
    n := 0;
    while m[p + n] != 0
      invariant n <= |name|
      decreases |name| - n
    {
      n := n + 1;
    }
  }

  /** strncmp(name, text, |text|) == 0 for a text without NUL */
  method StartsWith(m: Bytes, p: nat, text: Bytes, ghost name: Bytes) returns (eq: bool)
    requires StringAt(m, p, name) && 0 !in text
    ensures eq <==> text <= name
  {
    ghost var s := name + [0];
    assert forall k | 0 <= k < |s| :: m[p + k] == m[p..p + |s|][k] == s[k];
    assert text <= name ==> forall k | 0 <= k < |text| :: name[k] == text[k];
    var i := 0;
    while i < |text| && m[p + i] != 0 && m[p + i] == text[i]
      invariant i <= |text| && i <= |name| && text[..i] == name[..i]
    {
      i := i + 1;
    }
    eq := i == |text|;
  }

  /** strcmp(name, text) == 0 for a text without NUL */
  method Equals(m: Bytes, p: nat, text: Bytes, ghost name: Bytes) returns (eq: bool)
    requires StringAt(m, p, name) && 0 !in text
    ensures eq <==> name == text
  {
    ghost var s := name + [0];
    var t := text + [0];
    assert forall k | 0 <= k < |s| :: m[p + k] == m[p..p + |s|][k] == s[k];
    var i := 0;
    while m[p + i] != 0 && m[p + i] == t[i]
      invariant i <= |text| && i <= |name| && text[..i] == name[..i]
      decreases |text| - i
    {
      i := i + 1;
    }
    eq := m[p + i] == t[i];
    if eq {
      assert i == |name| == |text|;
    }
  }

  // ---------- The structure block ----------

  datatype Token =
    | Begin(name: Bytes)
    | EndNode
    | Prop(name: Bytes, data: Bytes)
    | Nop
    | Stop                      // FDT_END, or a token that is none

  function Aligned(n: nat): nat {
    (n + 3) / 4 * 4
  }

  /** The bytes a token takes. */
  function Size(t: Token): nat {
    match t
    case Begin(name) => 4 + Aligned(|name| + 1)
    case Prop(_, data) => 12 + Aligned(|data|)
    case _ => 4
  }

  /** Token t lies at p; property names are in the strings block. What pads a token may be anything. */
  ghost predicate TokenAt(m: Bytes, p: nat, strings: nat, t: Token) {
    p + 4 <= |m| &&
    match t
    case Begin(name) => Big32(m, p) == FDT_BEGIN_NODE && StringAt(m, p + 4, name)
    case EndNode => Big32(m, p) == FDT_END_NODE
    case Prop(name, data) =>
      && Big32(m, p) == FDT_PROP && p + 12 <= |m| && Big32(m, p + 4) as nat == |data| && HasAt(m, p + 12, data)
      && StringAt(m, strings + Big32(m, p + 8) as nat, name)
    case Nop => Big32(m, p) == FDT_NOP
    case Stop => Big32(m, p) !in {FDT_BEGIN_NODE, FDT_END_NODE, FDT_PROP, FDT_NOP}
  }

  /** The tokens lie one after the other from p on, each aligned to four bytes, up to the first one that stops. */
  ghost predicate Encoded(m: Bytes, p: nat, strings: nat, ts: seq<Token>)
    decreases |ts|
  {
    ts != [] && TokenAt(m, p, strings, ts[0])
    && if ts[0].Stop? then |ts| == 1 else Encoded(m, p + Size(ts[0]), strings, ts[1..])
  }

  datatype Found = NotFound | Memory(base: bv64, size: bv64)

  predicate IsWideReg(name: Bytes, data: Bytes) {
    name == REG && |data| >= 16
  }

  function RegValue(data: Bytes): Found
    requires |data| >= 16
  {
    Memory(Big64(data, 0), Big64(data, 8))
  }

  /** What the walk over the tokens finds. */
  function Walk(ts: seq<Token>, inMemory: bool): Found {
    if ts == [] then NotFound
    else match ts[0]
      case Begin(name) => Walk(ts[1..], inMemory || MEMORY <= name)
      case EndNode => Walk(ts[1..], false)
      case Prop(name, data) =>
        if inMemory && IsWideReg(name, data) then RegValue(data) else Walk(ts[1..], inMemory)
      case Nop => Walk(ts[1..], inMemory)
      case Stop => NotFound
  }

  lemma Same32(m: Bytes, p: nat, data: Bytes, k: nat)
    requires HasAt(m, p, data) && k + 4 <= |data|
    ensures Big32(m, p + k) == Big32(data, k)
  {
    hide Word;
    var d := m[p..p + |data|];
    assert d[k] == m[p + k] && d[k + 1] == m[p + k + 1] && d[k + 2] == m[p + k + 2] && d[k + 3] == m[p + k + 3];
  }

  /** The register is read as it lies in the property. */
  lemma RegReads(m: Bytes, p: nat, data: Bytes)
    requires HasAt(m, p, data) && |data| >= 16
    ensures Memory(Fdt64ToCpu(Load64(m, p)), Fdt64ToCpu(Load64(m, p + 8))) == RegValue(data)
  {
    SwapIsBig(m, p);
    SwapIsBig(m, p + 8);
    Same32(m, p, data, 0);
    Same32(m, p, data, 4);
    Same32(m, p, data, 8);
    Same32(m, p, data, 12);
    hide Fdt64ToCpu, Load64, Big32, Join, HasAt;
  }

  lemma AlignedIs(p: nat, n: nat)
    requires p % 4 == 0
    ensures (p + n + 3) / 4 * 4 == p + Aligned(n) && (p + Aligned(n)) % 4 == 0
  {
    assert (p + n + 3) / 4 == p / 4 + (n + 3) / 4;
  }

  /** The token at p, as the walk reads it. */
  lemma FirstToken(m: Bytes, p: nat, strings: nat, ts: seq<Token>)
    requires Encoded(m, p, strings, ts)
    ensures ts != [] && p + 4 <= |m| && Fdt32ToCpu(Load32(m, p)) == Big32(m, p)
    ensures Big32(m, p) == FDT_BEGIN_NODE ==> ts[0].Begin? && StringAt(m, p + 4, ts[0].name)
    ensures Big32(m, p) == FDT_END_NODE ==> ts[0].EndNode?
    ensures Big32(m, p) == FDT_PROP ==>
              && ts[0].Prop? && p + 12 <= |m| && Number(m, p + 4) == |ts[0].data|
              && HasAt(m, p + 12, ts[0].data) && p + 12 + |ts[0].data| <= |m|
              && StringAt(m, strings + Number(m, p + 8), ts[0].name)
    ensures Big32(m, p) == FDT_NOP ==> ts[0].Nop?
    ensures Big32(m, p) !in {FDT_BEGIN_NODE, FDT_END_NODE, FDT_PROP, FDT_NOP} ==> ts[0].Stop?
    ensures !ts[0].Stop? ==> Encoded(m, p + Size(ts[0]), strings, ts[1..])
  {
    SwapIsBig(m, p);
    SwapIsBig(m, p + 4);
    SwapIsBig(m, p + 8);
    hide Fdt32ToCpu, Load32, Big32, StringAt, Size;
  }

  lemma SizeOf(t: Token)
    ensures Size(t) == match t
                       case Begin(name) => 4 + Aligned(|name| + 1)
                       case Prop(_, data) => 12 + Aligned(|data|)
                       case _ => 4
  {
  }

  lemma WalkStep(ts: seq<Token>, inMemory: bool)
    requires ts != []
    ensures match ts[0]
            case Begin(name) => Walk(ts, inMemory) == Walk(ts[1..], inMemory || MEMORY <= name)
            case EndNode => Walk(ts, inMemory) == Walk(ts[1..], false)
            case Prop(name, data) =>
              if inMemory && name == REG && |data| >= 16 then Walk(ts, inMemory) == RegValue(data)
              else Walk(ts, inMemory) == Walk(ts[1..], inMemory)
            case Nop => Walk(ts, inMemory) == Walk(ts[1..], inMemory)
            case Stop => Walk(ts, inMemory) == NotFound
  {
    hide RegValue;
  }

  lemma NumberIs(m: Bytes, p: nat)
    requires p + 4 <= |m|
    ensures Number(m, p) == BigEndian(m[p..p + 4])
  {
    SwapReads(m, p);
    hide Fdt32ToCpu, Load32, BigEndian;
  }

  lemma Literals()
    ensures 0 !in MEMORY && 0 !in REG
    ensures FDT_BEGIN_NODE !in {FDT_END_NODE, FDT_PROP, FDT_NOP} && FDT_END_NODE !in {FDT_PROP, FDT_NOP}
    ensures FDT_PROP != FDT_NOP
  {
  }

  /** The name behind FDT_BEGIN_NODE: whether it is a memory node's, and where it ends. */
  method BeginNode(m: Bytes, p: nat, ghost name: Bytes) returns (isMemory: bool, next: nat)
    requires p % 4 == 0 && StringAt(m, p, name)
    ensures isMemory <==> MEMORY <= name
    ensures next == p + Aligned(|name| + 1) && next % 4 == 0
  {
    hide *;
    Literals();
    var len := StrLen(m, p, name);
    isMemory := StartsWith(m, p, MEMORY, name);
    AlignedIs(p, len + 1);
    next := (p + len + 4) / 4 * 4;
  }

  /** The reg of the property tells the base in its first eight bytes and the size in the next eight. */
  ghost predicate TellsMemory(t: Token, base: bv64, size: bv64) {
    && t.Prop? && t.name == REG && |t.data| >= 16
    && base as nat == BigEndian(t.data[..8]) && size as nat == BigEndian(t.data[8..16])
  }

  lemma RegTells(name: Bytes, data: Bytes)
    requires IsWideReg(name, data)
    ensures RegValue(data).Memory? && TellsMemory(Prop(name, data), RegValue(data).base, RegValue(data).size)
  {
    Big64Value(data, 0);
    Big64Value(data, 8);
    hide Big64, BigEndian;
    assert data[0..0 + 8] == data[..8] && data[8..8 + 8] == data[8..16];
  }

  lemma {:induction false} WalkTells(ts: seq<Token>, inMemory: bool)
    ensures var r := Walk(ts, inMemory); r.Memory? ==> exists t | t in ts :: TellsMemory(t, r.base, r.size)
  {
    hide TellsMemory, RegValue;
    if ts != [] && !ts[0].Stop? {
      forall b ensures var r := Walk(ts[1..], b); r.Memory? ==> exists t | t in ts :: TellsMemory(t, r.base, r.size) {
        WalkTells(ts[1..], b);
      }
      if ts[0].Prop? && IsWideReg(ts[0].name, ts[0].data) {
        RegTells(ts[0].name, ts[0].data);
        assert ts[0] in ts;
      }
    }
  }

  /** extract_memory_info: over a well-formed structure block it stays on token boundaries and ends. */
  method ExtractMemoryInfo(m: Bytes, ghost ts: seq<Token>) returns (r: Found)
    requires |m| >= 16 && BigEndian(m[8..12]) % 4 == 0
    requires Encoded(m, BigEndian(m[8..12]), BigEndian(m[12..16]), ts)
    ensures r == Walk(ts, false)
    ensures r.Memory? ==> exists t | t in ts :: TellsMemory(t, r.base, r.size)
  {
    hide *;
    Literals();
    NumberIs(m, 8);
    NumberIs(m, 12);
    WalkTells(ts, false);
    var ptr, strings := Number(m, 8), Number(m, 12);
    var inMemory := false;
    ghost var rest := ts;
    while true
      invariant ptr % 4 == 0 && Encoded(m, ptr, strings, rest) && Walk(rest, inMemory) == Walk(ts, false)
      decreases |rest|
    {
      FirstToken(m, ptr, strings, rest);
      WalkStep(rest, inMemory);
      SizeOf(rest[0]);
      var token := Fdt32ToCpu(Load32(m, ptr));
      if token == FDT_BEGIN_NODE {
        var isMemory, next := BeginNode(m, ptr + 4, rest[0].name);
        if isMemory {
          inMemory := true;
        }
        ptr := next;
      } else if token == FDT_END_NODE {
        inMemory := false;
        ptr := ptr + 4;
      } else if token == FDT_PROP {
        var len, nameoff := Number(m, ptr + 4), Number(m, ptr + 8);
        var isReg := false;
        if inMemory {
          isReg := Equals(m, strings + nameoff, REG, rest[0].name);
        }
        if inMemory && isReg && len >= 16 {
          RegReads(m, ptr + 12, rest[0].data);
          return Memory(Fdt64ToCpu(Load64(m, ptr + 12)), Fdt64ToCpu(Load64(m, ptr + 12 + 8)));
        }
        AlignedIs(ptr + 12, len);
        ptr := (ptr + 12 + len + 3) / 4 * 4;
      } else if token == FDT_NOP {
        ptr := ptr + 4;
      } else {
        return NotFound;
      }
      rest := rest[1..];
    }
  }

  // ---------- Writing a blob ----------

  /** A byte of the given value, from its two hexadecimal digits. */
  function Byte(n: nat): bv8
    requires n < 0x100
  {
    (((n / 0x10) as bv4 as bv8) << 4) | ((n % 0x10) as bv4 as bv8)
  }

  lemma DigitKept(n: nat)
    requires n < 0x10
    ensures (n as bv4) as nat == n
  {
  }

  lemma Beside4(high: bv4, low: bv4)
    ensures (((high as bv8) << 4) | (low as bv8)) as nat == 0x10 * (high as nat) + low as nat
  {
  }

  lemma ByteKept(n: nat)
    requires n < 0x100
    ensures Byte(n) as nat == n
  {
    DigitKept(n / 0x10);
    DigitKept(n % 0x10);
    Beside4((n / 0x10) as bv4, (n % 0x10) as bv4);
  }

  /** The four bytes of a number, the most significant first. */
  function BigBytes(n: nat): Bytes
    requires n < 0x1_0000_0000
  {
    [Byte(n / 0x100_0000), Byte(n / 0x1_0000 % 0x100), Byte(n / 0x100 % 0x100), Byte(n % 0x100)]
  }

  lemma FourDigits(n: nat)
    ensures n == 0x100_0000 * (n / 0x100_0000) + 0x1_0000 * (n / 0x1_0000 % 0x100) + 0x100 * (n / 0x100 % 0x100)
                 + n % 0x100
  {
    var a, b := n / 0x100, n / 0x1_0000;
    assert b == a / 0x100 && n / 0x100_0000 == b / 0x100;
    assert n == 0x100 * a + n % 0x100 && a == 0x100 * b + a % 0x100 && b == 0x100 * (b / 0x100) + b % 0x100;
  }

  lemma BytesAre(n: nat)
    requires n < 0x1_0000_0000
    ensures var b := BigBytes(n);
            && |b| == 4 && b[0] as nat == n / 0x100_0000 && b[1] as nat == n / 0x1_0000 % 0x100
            && b[2] as nat == n / 0x100 % 0x100 && b[3] as nat == n % 0x100
  {
    hide Byte;
    ByteKept(n / 0x100_0000);
    ByteKept(n / 0x1_0000 % 0x100);
    ByteKept(n / 0x100 % 0x100);
    ByteKept(n % 0x100);
  }

  lemma BigBytesRead(n: nat)
    requires n < 0x1_0000_0000
    ensures BigEndian(BigBytes(n)) == n
  {
    BytesAre(n);
    hide *;
    BigEndianOf4(BigBytes(n));
    FourDigits(n);
  }

  /** Padding to the next multiple of four. */
  function PaddedTo4(data: Bytes): Bytes {
    data + seq(Aligned(|data|) - |data|, _ => 0)
  }

  /** A token that can be written: names end in a NUL of their own, and lengths fit into four bytes. */
  predicate Writable(t: Token) {
    match t
    case Begin(name) => 0 !in name
    case Prop(name, data) => 0 !in name && |data| < 0x1_0000_0000
    case Stop => false
    case _ => true
  }

  /** The bytes of a token, as section 5.4.1 of the Devicetree Specification lays them out; the name of a property lies
      at the given offset of the strings block. */
  function Written(t: Token, nameoff: nat): Bytes
    requires Writable(t) && nameoff < 0x1_0000_0000
  {
    match t
    case Begin(name) => BigBytes(1) + PaddedTo4(name + [0])
    case EndNode => BigBytes(2)
    case Prop(name, data) => BigBytes(3) + (BigBytes(|data|) + (BigBytes(nameoff) + PaddedTo4(data)))
    case Nop => BigBytes(4)
  }

  /** The strings block: the names of the properties, one after the other. */
  function Strings(ts: seq<Token>): Bytes {
    if ts == [] then [] else (if ts[0].Prop? then ts[0].name + [0] else []) + Strings(ts[1..])
  }

  /** The structure block, with the names of the properties from the given offset on. */
  function Structure(ts: seq<Token>, nameoff: nat): Bytes
    requires (forall t | t in ts :: Writable(t)) && nameoff + |Strings(ts)| < 0x1_0000_0000
  {
    if ts == [] then BigBytes(9)
    else Written(ts[0], nameoff) + Structure(ts[1..], nameoff + if ts[0].Prop? then |ts[0].name| + 1 else 0)
  }

  lemma HasConcat(m: Bytes, p: nat, a: Bytes, b: Bytes)
    requires HasAt(m, p, a + b)
    ensures HasAt(m, p, a) && HasAt(m, p + |a|, b)
  {
    assert m[p..p + |a + b|][..|a|] == a && m[p..p + |a + b|][|a|..] == b;
  }

  lemma BigAt(m: Bytes, p: nat, n: nat)
    requires n < 0x1_0000_0000 && HasAt(m, p, BigBytes(n))
    ensures p + 4 <= |m| && Big32(m, p) as nat == n
  {
    assert |BigBytes(n)| == 4;
    Big32Value(m, p);
    BigBytesRead(n);
  }

  lemma WrittenSize(t: Token, nameoff: nat)
    requires Writable(t) && nameoff < 0x1_0000_0000
    ensures |Written(t, nameoff)| == Size(t)
  {
  }

  lemma WrittenAt(m: Bytes, p: nat, strings: nat, t: Token, nameoff: nat)
    requires Writable(t) && nameoff < 0x1_0000_0000 && HasAt(m, p, Written(t, nameoff))
    requires t.Prop? ==> HasAt(m, strings + nameoff, t.name + [0])
    ensures TokenAt(m, p, strings, t)
  {
    hide Big32, BigBytes, HasAt;
    FourBytes();
    match t
    case Begin(name) =>
      HasConcat(m, p, BigBytes(1), PaddedTo4(name + [0]));
      BigAt(m, p, 1);
      HasConcat(m, p + 4, name + [0], seq(Aligned(|name + [0]|) - |name + [0]|, _ => 0));
    case EndNode =>
      BigAt(m, p, 2);
    case Prop(name, data) =>
      HasConcat(m, p, BigBytes(3), BigBytes(|data|) + (BigBytes(nameoff) + PaddedTo4(data)));
      HasConcat(m, p + 4, BigBytes(|data|), BigBytes(nameoff) + PaddedTo4(data));
      HasConcat(m, p + 8, BigBytes(nameoff), PaddedTo4(data));
      HasConcat(m, p + 12, data, seq(Aligned(|data|) - |data|, _ => 0));
      BigAt(m, p, 3);
      BigAt(m, p + 4, |data|);
      BigAt(m, p + 8, nameoff);
    case Nop =>
      BigAt(m, p, 4);
  }

  lemma FourBytes()
    ensures forall n: nat | n < 0x1_0000_0000 :: |BigBytes(n)| == 4
  {
  }

  /** A structure block written from tokens is one they can be read from. */
  lemma {:induction false} StructureEncoded(m: Bytes, p: nat, strings: nat, ts: seq<Token>, nameoff: nat)
    requires (forall t | t in ts :: Writable(t)) && nameoff + |Strings(ts)| < 0x1_0000_0000
    requires HasAt(m, p, Structure(ts, nameoff)) && HasAt(m, strings + nameoff, Strings(ts))
    ensures Encoded(m, p, strings, ts + [Stop])
    decreases |ts|
  {
    hide HasAt, TokenAt, Written, BigBytes, Writable;
    if ts == [] {
      BigAt(m, p, 9);
      StopAt(m, p, strings);
    } else {
      var t, next := ts[0], nameoff + if ts[0].Prop? then |ts[0].name| + 1 else 0;
      HasConcat(m, p, Written(t, nameoff), Structure(ts[1..], next));
      HasConcat(m, strings + nameoff, if t.Prop? then t.name + [0] else [], Strings(ts[1..]));
      WrittenAt(m, p, strings, t, nameoff);
      WrittenSize(t, nameoff);
      StructureEncoded(m, p + Size(t), strings, ts[1..], next);
      assert (ts + [Stop])[0] == t && (ts + [Stop])[1..] == ts[1..] + [Stop];
      NotStop(t);
    }
  }

  lemma NotStop(t: Token)
    requires Writable(t)
    ensures !t.Stop?
  {
  }

  lemma StopAt(m: Bytes, p: nat, strings: nat)
    requires p + 4 <= |m| && Big32(m, p) as nat == 9
    ensures TokenAt(m, p, strings, Stop)
  {
    hide Big32;
  }

  // ---------- Trees ----------

  datatype Property = Property(name: Bytes, data: Bytes)

  /** A node with its properties before its children, as section 5.4.2 of the Devicetree Specification orders them. */
  datatype Node = Node(name: Bytes, props: seq<Property>, children: seq<Node>)

  function PropTokens(props: seq<Property>): seq<Token> {
    if props == [] then [] else [Prop(props[0].name, props[0].data)] + PropTokens(props[1..])
  }

  function Tokens(node: Node): seq<Token>
    decreases node
  {
    [Begin(node.name)] + PropTokens(node.props) + TokensAll(node.children) + [EndNode]
  }

  function TokensAll(nodes: seq<Node>): seq<Token>
    decreases nodes
  {
    if nodes == [] then [] else Tokens(nodes[0]) + TokensAll(nodes[1..])
  }

  /** The first wide reg among the properties. */
  function OwnReg(props: seq<Property>): Found {
    if props == [] then NotFound
    else if IsWideReg(props[0].name, props[0].data) then RegValue(props[0].data)
    else OwnReg(props[1..])
  }

  predicate IsMemory(node: Node) {
    MEMORY <= node.name
  }

  /** The first wide reg in a memory node, in the order of the blob. */
  function FirstReg(node: Node): Found
    decreases node
  {
    if IsMemory(node) && OwnReg(node.props).Memory? then OwnReg(node.props) else FirstRegAll(node.children)
  }

  function FirstRegAll(nodes: seq<Node>): Found
    decreases nodes
  {
    if nodes == [] then NotFound
    else if FirstReg(nodes[0]).Memory? then FirstReg(nodes[0])
    else FirstRegAll(nodes[1..])
  }

  /** What the code finds: a memory node passes its mark on to its first child, and any closed node takes it away. */
  function Seen(node: Node, marked: bool): Found
    decreases node
  {
    var mark := marked || IsMemory(node);
    if mark && OwnReg(node.props).Memory? then OwnReg(node.props) else SeenAll(node.children, mark)
  }

  function SeenAll(nodes: seq<Node>, marked: bool): Found
    decreases nodes
  {
    if nodes == [] then NotFound
    else if Seen(nodes[0], marked).Memory? then Seen(nodes[0], marked)
    else SeenAll(nodes[1..], false)
  }

  lemma WalkConcat(t: Token, rest: seq<Token>)
    ensures ([t] + rest) != [] && ([t] + rest)[0] == t && ([t] + rest)[1..] == rest
  {
  }

  lemma {:induction false} WalkProps(props: seq<Property>, rest: seq<Token>, marked: bool)
    ensures Walk(PropTokens(props) + rest, marked)
         == if marked && OwnReg(props).Memory? then OwnReg(props) else Walk(rest, marked)
  {
    hide Walk, RegValue;
    if props == [] {
      assert PropTokens(props) + rest == rest;
    } else {
      var t, tail := Prop(props[0].name, props[0].data), PropTokens(props[1..]) + rest;
      assert PropTokens(props) + rest == [t] + tail;
      WalkConcat(t, tail);
      WalkStep([t] + tail, marked);
      WalkProps(props[1..], rest, marked);
      RegIsMemory(props[0].data);
    }
  }

  lemma RegIsMemory(data: Bytes)
    ensures |data| >= 16 ==> RegValue(data).Memory?
  {
  }

  /** The tokens of a whole node, whatever follows. */
  lemma {:induction false} WalkNode(node: Node, rest: seq<Token>, marked: bool)
    ensures Walk(Tokens(node) + rest, marked)
         == if Seen(node, marked).Memory? then Seen(node, marked) else Walk(rest, false)
    decreases node
  {
    hide Walk, OwnReg;
    var mark, end := marked || IsMemory(node), [EndNode] + rest;
    var inner := TokensAll(node.children) + end;
    assert Tokens(node) + rest == [Begin(node.name)] + (PropTokens(node.props) + inner);
    WalkConcat(Begin(node.name), PropTokens(node.props) + inner);
    WalkStep([Begin(node.name)] + (PropTokens(node.props) + inner), marked);
    WalkProps(node.props, inner, mark);
    WalkNodes(node.children, end, mark);
    WalkConcat(EndNode, rest);
    WalkStep(end, false);
    WalkStep(end, mark);
  }

  lemma {:induction false} WalkNodes(nodes: seq<Node>, rest: seq<Token>, marked: bool)
    ensures Walk(TokensAll(nodes) + rest, marked)
         == if SeenAll(nodes, marked).Memory? then SeenAll(nodes, marked)
            else Walk(rest, if nodes == [] then marked else false)
    decreases nodes
  {
    hide Walk, OwnReg;
    if nodes == [] {
      assert TokensAll(nodes) + rest == rest;
    } else {
      var tail := TokensAll(nodes[1..]) + rest;
      assert TokensAll(nodes) + rest == Tokens(nodes[0]) + tail;
      WalkNode(nodes[0], tail, marked);
      WalkNodes(nodes[1..], rest, false);
    }
  }

  function WithoutNops(ts: seq<Token>): seq<Token> {
    if ts == [] then [] else (if ts[0].Nop? then [] else [ts[0]]) + WithoutNops(ts[1..])
  }

  /** FDT_NOP tokens make no difference. */
  lemma {:induction false} NopsIgnored(ts: seq<Token>, marked: bool)
    ensures Walk(WithoutNops(ts), marked) == Walk(ts, marked)
  {
    hide Walk, RegValue;
    if ts == [] {
      assert WithoutNops(ts) == ts;
    } else {
      var t, tail := ts[0], WithoutNops(ts[1..]);
      WalkStep(ts, marked);
      forall b ensures Walk(tail, b) == Walk(ts[1..], b) {
        NopsIgnored(ts[1..], b);
      }
      if t.Nop? {
        assert WithoutNops(ts) == tail;
      } else {
        assert WithoutNops(ts) == [t] + tail;
        WalkConcat(t, tail);
        WalkStep([t] + tail, marked);
      }
    }
  }

  /** A memory node has children only behind a wide reg of its own. */
  predicate Plain(node: Node)
    decreases node
  {
    (IsMemory(node) ==> node.children == [] || OwnReg(node.props).Memory?) && PlainAll(node.children)
  }

  predicate PlainAll(nodes: seq<Node>)
    decreases nodes
  {
    nodes == [] || (Plain(nodes[0]) && PlainAll(nodes[1..]))
  }

  lemma {:induction false} PlainSeen(node: Node)
    requires Plain(node)
    ensures Seen(node, false) == FirstReg(node)
    decreases node
  {
    hide OwnReg;
    PlainSeenAll(node.children);
  }

  lemma {:induction false} PlainSeenAll(nodes: seq<Node>)
    requires PlainAll(nodes)
    ensures SeenAll(nodes, false) == FirstRegAll(nodes)
    decreases nodes
  {
    hide OwnReg;
    if nodes != [] {
      PlainSeen(nodes[0]);
      PlainSeenAll(nodes[1..]);
    }
  }

  /** The walk over a whole tree, with any FDT_NOP tokens in between: what it finds is exactly Seen, and for trees
      whose memory nodes have no children before a reg it is the first memory node's. */
  lemma WalkTree(ts: seq<Token>, root: Node)
    requires WithoutNops(ts) == Tokens(root) + [Stop]
    ensures Walk(ts, false) == Seen(root, false)
    ensures Plain(root) ==> Walk(ts, false) == FirstReg(root)
  {
    hide Seen, FirstReg, Plain, Tokens, WithoutNops;
    NopsIgnored(ts, false);
    WalkNode(root, [Stop], false);
    assert Walk([Stop], false) == NotFound;
    if Plain(root) {
      PlainSeen(root);
    }
  }

  // ---------- Whose reg it is ----------

  /** The node whose reg the code returns. */
  function SeenNode(node: Node, marked: bool): Option<Node>
    decreases node
  {
    var mark := marked || IsMemory(node);
    if mark && OwnReg(node.props).Memory? then Some(node) else SeenNodeAll(node.children, mark)
  }

  function SeenNodeAll(nodes: seq<Node>, marked: bool): Option<Node>
    decreases nodes
  {
    if nodes == [] then None
    else if SeenNode(nodes[0], marked).Some? then SeenNode(nodes[0], marked)
    else SeenNodeAll(nodes[1..], false)
  }

  /** The first memory node with a wide reg. */
  function FirstNode(node: Node): Option<Node>
    decreases node
  {
    if IsMemory(node) && OwnReg(node.props).Memory? then Some(node) else FirstNodeAll(node.children)
  }

  function FirstNodeAll(nodes: seq<Node>): Option<Node>
    decreases nodes
  {
    if nodes == [] then None
    else if FirstNode(nodes[0]).Some? then FirstNode(nodes[0])
    else FirstNodeAll(nodes[1..])
  }

  function RegOf(n: Option<Node>): Found {
    if n.Some? then OwnReg(n.value.props) else NotFound
  }

  lemma {:induction false} SeenIsOfNode(node: Node, marked: bool)
    ensures Seen(node, marked) == RegOf(SeenNode(node, marked))
    ensures SeenNode(node, marked).Some? ==> OwnReg(SeenNode(node, marked).value.props).Memory?
    decreases node
  {
    hide OwnReg;
    SeenIsOfNodes(node.children, marked || IsMemory(node));
  }

  lemma {:induction false} SeenIsOfNodes(nodes: seq<Node>, marked: bool)
    ensures SeenAll(nodes, marked) == RegOf(SeenNodeAll(nodes, marked))
    ensures SeenNodeAll(nodes, marked).Some? ==> OwnReg(SeenNodeAll(nodes, marked).value.props).Memory?
    decreases nodes
  {
    hide OwnReg;
    if nodes != [] {
      SeenIsOfNode(nodes[0], marked);
      SeenIsOfNodes(nodes[1..], false);
    }
  }

  lemma {:induction false} FirstIsOfNode(node: Node)
    ensures FirstReg(node) == RegOf(FirstNode(node))
    ensures FirstNode(node).Some? ==> IsMemory(FirstNode(node).value) && OwnReg(FirstNode(node).value.props).Memory?
    decreases node
  {
    hide OwnReg, IsMemory;
    FirstIsOfNodes(node.children);
  }

  lemma {:induction false} FirstIsOfNodes(nodes: seq<Node>)
    ensures FirstRegAll(nodes) == RegOf(FirstNodeAll(nodes))
    ensures FirstNodeAll(nodes).Some? ==>
              IsMemory(FirstNodeAll(nodes).value) && OwnReg(FirstNodeAll(nodes).value.props).Memory?
    decreases nodes
  {
    hide OwnReg, IsMemory;
    if nodes != [] {
      FirstIsOfNode(nodes[0]);
      FirstIsOfNodes(nodes[1..]);
    }
  }

  lemma {:induction false} SeenBeforeFirst(node: Node, marked: bool)
    ensures SeenNode(node, marked).Some? && IsMemory(SeenNode(node, marked).value) ==>
              FirstNode(node) == SeenNode(node, marked)
    ensures SeenNode(node, marked).None? ==> FirstNode(node).None?
    decreases node
  {
    hide OwnReg;
    SeenBeforeFirsts(node.children, marked || IsMemory(node));
  }

  lemma {:induction false} SeenBeforeFirsts(nodes: seq<Node>, marked: bool)
    ensures SeenNodeAll(nodes, marked).Some? && IsMemory(SeenNodeAll(nodes, marked).value) ==>
              FirstNodeAll(nodes) == SeenNodeAll(nodes, marked)
    ensures SeenNodeAll(nodes, marked).None? ==> FirstNodeAll(nodes).None?
    decreases nodes
  {
    hide OwnReg;
    if nodes != [] {
      SeenBeforeFirst(nodes[0], marked);
      SeenBeforeFirsts(nodes[1..], false);
    }
  }

  /** The first wide reg down the first children, the node's own included. */
  function Heir(node: Node): Option<Node>
    decreases node
  {
    if OwnReg(node.props).Memory? then Some(node)
    else if node.children == [] then None
    else Heir(node.children[0])
  }

  /** The nodes in the order of the blob. */
  function InOrder(node: Node): seq<Node>
    decreases node
  {
    [node] + InOrderAll(node.children)
  }

  function InOrderAll(nodes: seq<Node>): seq<Node>
    decreases nodes
  {
    if nodes == [] then [] else InOrder(nodes[0]) + InOrderAll(nodes[1..])
  }

  /** The first memory node that has an heir. */
  function FirstHeired(nodes: seq<Node>): (n: Option<Node>)
    ensures n.Some? ==> n.value in nodes && IsMemory(n.value) && Heir(n.value).Some?
  {
    if nodes == [] then None
    else if IsMemory(nodes[0]) && Heir(nodes[0]).Some? then Some(nodes[0])
    else FirstHeired(nodes[1..])
  }

  function HeirOf(n: Option<Node>): Option<Node> {
    if n.Some? then Heir(n.value) else None
  }

  lemma {:induction false} HeiredConcat(a: seq<Node>, b: seq<Node>)
    ensures FirstHeired(a + b) == if FirstHeired(a).Some? then FirstHeired(a) else FirstHeired(b)
  {
    hide Heir, IsMemory;
    if a == [] {
      assert a + b == b;
    } else {
      assert (a + b)[0] == a[0] && (a + b)[1..] == a[1..] + b;
      HeiredConcat(a[1..], b);
    }
  }

  /** The walk returns the reg of an heir: of the node's own if it comes marked, else of the first memory node's. */
  lemma {:induction false} SeenIsHeir(node: Node, marked: bool)
    ensures SeenNode(node, marked)
         == if marked && Heir(node).Some? then Heir(node) else HeirOf(FirstHeired(InOrder(node)))
    decreases node
  {
    hide OwnReg, IsMemory;
    assert ([node] + InOrderAll(node.children))[1..] == InOrderAll(node.children);
    SeenAreHeirs(node.children, marked || IsMemory(node));
  }

  lemma {:induction false} SeenAreHeirs(nodes: seq<Node>, marked: bool)
    ensures SeenNodeAll(nodes, marked)
         == if marked && nodes != [] && Heir(nodes[0]).Some? then Heir(nodes[0])
            else HeirOf(FirstHeired(InOrderAll(nodes)))
    decreases nodes
  {
    hide OwnReg, IsMemory;
    if nodes != [] {
      SeenIsHeir(nodes[0], marked);
      SeenAreHeirs(nodes[1..], false);
      HeiredConcat(InOrder(nodes[0]), InOrderAll(nodes[1..]));
    }
  }

  /** For every tree: the code returns the reg of the heir of the first memory node that has one, and this is the
      first memory node with a wide reg exactly when the heir is a memory node. */
  lemma RightNodeExactly(ts: seq<Token>, root: Node)
    requires WithoutNops(ts) == Tokens(root) + [Stop]
    ensures var memory := FirstHeired(InOrder(root));
            && Walk(ts, false) == RegOf(HeirOf(memory))
            && FirstReg(root) == RegOf(FirstNode(root))
            && (HeirOf(memory) == FirstNode(root) <==> memory.None? || IsMemory(Heir(memory.value).value))
  {
    hide Seen, FirstReg, Tokens, WithoutNops, Walk, OwnReg, Heir, InOrder;
    WalkTree(ts, root);
    SeenIsOfNode(root, false);
    SeenIsHeir(root, false);
    FirstIsOfNode(root);
    SeenBeforeFirst(root, false);
  }

  /** It need not be: here a child's reg is taken for the memory's. */
  lemma ChildTakenForMemory(data: Bytes)
    requires |data| >= 16
    ensures var child := Node([0x63], [Property(REG, data)], []);
            var root := Node([], [], [Node(MEMORY, [], [child])]);
            Seen(root, false) == RegValue(data) && FirstReg(root) == NotFound
  {
    var child := Node([0x63], [Property(REG, data)], []);
    var memory := Node(MEMORY, [], [child]);
    RegIsMemory(data);
    assert !IsMemory(child) && IsMemory(memory) && !IsMemory(Node([], [], [memory]));
    assert Seen(child, true) == RegValue(data) && SeenAll([child], true) == RegValue(data);
    assert Seen(memory, false) == RegValue(data) && SeenAll([memory], false) == RegValue(data);
    assert FirstReg(child) == NotFound && FirstRegAll([child]) == NotFound;
    assert FirstReg(memory) == NotFound && FirstRegAll([memory]) == NotFound;
  }
}
