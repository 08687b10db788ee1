/** Embedding a configuration in the signing block of an APK file.

    An APK is a ZIP file whose central directory is preceded by the APK Signing
    Block: a size, a list of length-prefixed (id, value) pairs, the same size
    again and a magic string. The End of Central Directory record holds the
    offset of the directory, and has to follow every change of it. */
module ApkSigningBlock {
  import opened Basics
  import opened Bytes

  const SIG: seq<Byte> := [0x50, 0x4b, 0x05, 0x06]
  const MAGIC: seq<Byte> :=   // "APK Sig Block 42"
    [0x41, 0x50, 0x4b, 0x20, 0x53, 0x69, 0x67, 0x20, 0x42, 0x6c, 0x6f, 0x63, 0x6b, 0x20, 0x34, 0x32]
  const CONFIG_ID: nat := 0x71777777
  const TWO32: nat := 0x1_0000_0000
  const TWO63: nat := 0x8000_0000_0000_0000
  const TWO64: nat := 0x1_0000_0000_0000_0000

  // ------------------------------------------------------------- the injection

  datatype Outcome =
    | Ok(apk: seq<Byte>)
    | EocdNotFound | InvalidDirectoryOffset | BlockNotFound | InvalidBlockStart
    | Panic   // a slice expression out of range

  predicate SigAt(s: seq<Byte>, i: nat) {
    i + 4 <= |s| && s[i] == SIG[0] && s[i + 1] == SIG[1] && s[i + 2] == SIG[2] && s[i + 3] == SIG[3]
  }

  /** The last occurrence of the signature that starts before `end`. */
  function LastSig(s: seq<Byte>, end: nat): (p: int)
    ensures -1 <= p < end
    ensures 0 <= p ==> SigAt(s, p)
    ensures forall i: nat | p < i < end :: !SigAt(s, i)
  {
    if end == 0 then -1
    else if SigAt(s, end - 1) then end - 1
    else LastSig(s, end - 1)
  }

  /** Conversion to int64, uint64 and uint32. */
  function Wrap64(x: int): int { (x + TWO63) % TWO64 - TWO63 }
  function U64(x: nat): nat { x % TWO64 }
  function U32(x: nat): nat { x % TWO32 }

  lemma SmallNumbers(x: nat)
    requires x < 2 * TWO32
    ensures Wrap64(x) == x && U64(x) == x && (x < TWO32 ==> U32(x) == x)
  {
  }

  method InjectApkConfig(apk: seq<Byte>, config: seq<Byte>) returns (r: Outcome)
    ensures r == Inject(apk, config)
  {
    hide Le, FromLe, Wrap64, U64, U32, LastSig, Assemble, PairBytes;
    var eocdPos := LastSig(apk, |apk|);
    if eocdPos == -1 {
      return EocdNotFound;
    }
    if eocdPos + 20 > |apk| {
      return Panic;
    }
    var cdOffset := FromLe(apk[eocdPos + 16..eocdPos + 20]);
    if cdOffset > |apk| || cdOffset < 24 {
      return InvalidDirectoryOffset;
    }
    var magic := apk[cdOffset - 16..cdOffset];
    if magic != MAGIC {
      return BlockNotFound;
    }
    var blockSize := FromLe(apk[cdOffset - 24..cdOffset - 16]);
    var blockStart := Wrap64(cdOffset - 8 - blockSize);
    if blockStart < 0 {
      return InvalidBlockStart;
    }
    var pairBytes := ConfigPair(config);
    if blockStart > |apk| || blockStart + 8 > cdOffset - 24 || cdOffset > eocdPos {
      return Panic;
    }
    var result := Rewrite(apk, eocdPos, cdOffset, blockStart, Le(U64(blockSize + |pairBytes|), 8), pairBytes);
    return Ok(result);
  }

  method ConfigPair(config: seq<Byte>) returns (pairBytes: seq<Byte>)
    ensures pairBytes == PairBytes(Pair(CONFIG_ID, config))
  {
    pairBytes := Le(4 + |config|, 8);
    pairBytes := pairBytes + Le(CONFIG_ID, 4);
    pairBytes := pairBytes + config;
  }

  /** The new file, piece by piece. */
  method Rewrite(apk: seq<Byte>, eocdPos: nat, cdOffset: nat, blockStart: nat, sizeBytes: seq<Byte>, pairBytes: seq<Byte>)
    returns (result: seq<Byte>)
    requires eocdPos + 20 <= |apk| && 24 <= cdOffset <= eocdPos && blockStart + 8 <= cdOffset - 24
    requires apk[cdOffset - 16..cdOffset] == MAGIC
    ensures result == Assemble(apk[..blockStart], sizeBytes, pairBytes, apk[blockStart + 8..cdOffset - 24],
                               apk[cdOffset..eocdPos + 16], Le(U32(cdOffset + |pairBytes|), 4), apk[eocdPos + 20..])
  {
    hide Le, U32;
    var cdAndEocd := apk[cdOffset..];
    var at := eocdPos - cdOffset;
    SuffixSlices(apk, cdOffset, eocdPos);
    cdAndEocd := cdAndEocd[..at + 16] + Le(U32(cdOffset + |pairBytes|), 4) + cdAndEocd[at + 20..];
    result := apk[..blockStart];
    result := result + sizeBytes;
    result := result + pairBytes;
    result := result + apk[blockStart + 8..cdOffset - 24];
    result := result + (sizeBytes + MAGIC);
    result := result + cdAndEocd;
  }

  lemma SuffixSlices(s: seq<Byte>, cd: nat, p: nat)
    requires cd <= p && p + 20 <= |s|
    ensures s[cd..][..p - cd + 16] == s[cd..p + 16] && s[cd..][p - cd + 20..] == s[p + 20..]
  {
  }

  /** The same as one expression. */
  function Inject(apk: seq<Byte>, config: seq<Byte>): Outcome {
    var p := LastSig(apk, |apk|);
    if p == -1 then EocdNotFound
    else if p + 20 > |apk| then Panic
    else
      var cd := FromLe(apk[p + 16..p + 20]);
      if cd > |apk| || cd < 24 then InvalidDirectoryOffset
      else if apk[cd - 16..cd] != MAGIC then BlockNotFound
      else
        var size := FromLe(apk[cd - 24..cd - 16]);
        var start := Wrap64(cd - 8 - size);
        if start < 0 then InvalidBlockStart
        else if start > |apk| || start + 8 > cd - 24 || cd > p then Panic
        else
          var pair := PairBytes(Pair(CONFIG_ID, config));
          var sizeBytes := Le(U64(size + |pair|), 8);
          Ok(Assemble(apk[..start], sizeBytes, pair, apk[start + 8..cd - 24],
                      apk[cd..p + 16], Le(U32(cd + |pair|), 4), apk[p + 20..]))
  }

  function Assemble(entries: seq<Byte>, sizeBytes: seq<Byte>, pair: seq<Byte>, rest: seq<Byte>,
                    directoryAndHead: seq<Byte>, offset: seq<Byte>, tail: seq<Byte>): seq<Byte> {
    entries + sizeBytes + pair + rest + (sizeBytes + MAGIC) + (directoryAndHead + offset + tail)
  }

  // ------------------------------------------------------------- what each outcome means

  /** The end of central directory signature, "PK", 5, 6. */
  predicate SignatureAt(s: seq<Byte>, i: nat) { i + 4 <= |s| && s[i..i + 4] == [0x50, 0x4b, 0x05, 0x06] }

  ghost predicate LastRecord(s: seq<Byte>, p: nat) {
    SignatureAt(s, p) && forall i: nat | p < i :: !SignatureAt(s, i)
  }

  predicate Complete(s: seq<Byte>, p: nat) { p + 20 <= |s| }

  function Directory(s: seq<Byte>, p: nat): nat
    requires Complete(s, p)
  {
    Number(s, p + 16)
  }

  predicate InReach(s: seq<Byte>, p: nat) { Complete(s, p) && 24 <= Directory(s, p) <= |s| }

  /** "APK Sig Block 42" stands right before the directory. */
  predicate Signed(s: seq<Byte>, p: nat) {
    InReach(s, p) && s[Directory(s, p) - 16..Directory(s, p)]
      == [0x41, 0x50, 0x4b, 0x20, 0x53, 0x69, 0x67, 0x20, 0x42, 0x6c, 0x6f, 0x63, 0x6b, 0x20, 0x34, 0x32]
  }

  function SizeField(s: seq<Byte>, p: nat): nat
    requires Signed(s, p)
  {
    LongNumber(s, Directory(s, p) - 24)
  }

  lemma RecordIsSig(s: seq<Byte>, i: nat)
    ensures SignatureAt(s, i) <==> SigAt(s, i)
  {
    if i + 4 <= |s| {
      assert s[i..i + 4] == [s[i], s[i + 1], s[i + 2], s[i + 3]];
    }
  }

  lemma LastRecordIs(s: seq<Byte>, p: nat)
    requires LastRecord(s, p)
    ensures LastSig(s, |s|) == p
  {
    RecordIsSig(s, p);
    var q := LastSig(s, |s|);
    if q > p {
      RecordIsSig(s, q);
    }
  }

  /** Without the signature of the record, and only then, none is found. */
  lemma NotFoundWhen(apk: seq<Byte>, config: seq<Byte>)
    ensures Inject(apk, config) == EocdNotFound <==> forall i: nat :: !SignatureAt(apk, i)
  {
    hide FromLe, Assemble, Wrap64, U64, U32, PairBytes;
    var q := LastSig(apk, |apk|);
    forall i: nat
      ensures SignatureAt(apk, i) <==> SigAt(apk, i)
    {
      RecordIsSig(apk, i);
    }
    if q >= 0 {
      assert SignatureAt(apk, q);
    }
  }

  lemma WrappedStart(x: int, size: nat)
    requires 0 <= x < TWO63 && size < TWO64
    ensures Wrap64(x - size) < 0 <==> x < size <= x + TWO63
    ensures size <= x ==> Wrap64(x - size) == x - size
    ensures size > x + TWO63 ==> Wrap64(x - size) > x
  {
  }

  /** The outcome of every file with a record, by what the file holds. A size beyond what a
      signed number can express wraps around to a start behind the directory, and a slice with
      exchanged bounds panics. */
  lemma OutcomeIs(apk: seq<Byte>, config: seq<Byte>, p: nat)
    requires LastRecord(apk, p)
    ensures var r := Inject(apk, config);
      && (r == InvalidDirectoryOffset <==> Complete(apk, p) && !InReach(apk, p))
      && (r == BlockNotFound <==> InReach(apk, p) && !Signed(apk, p))
      && (r == InvalidBlockStart <==>
            Signed(apk, p) && Directory(apk, p) - 8 < SizeField(apk, p) <= Directory(apk, p) - 8 + 0x8000_0000_0000_0000)
      && (r.Ok? <==> Signed(apk, p) && 24 <= SizeField(apk, p) <= Directory(apk, p) - 8 && Directory(apk, p) <= p)
      && (r == Panic <==> !Complete(apk, p) || (Signed(apk, p) && !r.Ok? && r != InvalidBlockStart))
      && r != EocdNotFound
  {
    hide FromLe, Assemble, Wrap64, U64, U32, PairBytes, LastSig, Number, LongNumber;
    LastRecordIs(apk, p);
    if Complete(apk, p) {
      NumberIs(apk, p + 16);
      NumberBound(apk, p + 16);
      if InReach(apk, p) {
        var cd := Directory(apk, p);
        LongNumberIs(apk, cd - 24);
        LongNumberBound(apk, cd - 24);
        WrappedStart(cd - 8, LongNumber(apk, cd - 24));
      }
    }
  }

  lemma NumberBound(s: seq<Byte>, at: nat)
    requires at + 4 <= |s|
    ensures Number(s, at) < 0x1_0000_0000
  {
  }

  lemma LongNumberBound(s: seq<Byte>, at: nat)
    requires at + 8 <= |s|
    ensures LongNumber(s, at) < TWO64
  {
    hide Number;
    NumberBound(s, at);
    NumberBound(s, at + 4);
  }

  /** What is written on success: everything before the block, the new size, the pair with its
      length, its number and the configuration, the old pairs, the new size and the magic again,
      and the directory and the record with the new offset. */
  lemma WrittenIs(apk: seq<Byte>, config: seq<Byte>, p: nat) returns (size: seq<Byte>, length: seq<Byte>, offset: seq<Byte>)
    requires LastRecord(apk, p) && Inject(apk, config).Ok?
    ensures Signed(apk, p) && 24 <= SizeField(apk, p) <= Directory(apk, p) - 8 && Directory(apk, p) <= p
    ensures var cd := Directory(apk, p); var start := cd - 8 - SizeField(apk, p);
      && Inject(apk, config).apk
         == apk[..start] + size + (length + [0x77, 0x77, 0x77, 0x71] + config) + apk[start + 8..cd - 24]
            + (size + apk[cd - 16..cd]) + (apk[cd..p + 16] + offset + apk[p + 20..])
      && |size| == 8 && |length| == 8 && |offset| == 4
      && LongNumber(size, 0) == (SizeField(apk, p) + 12 + |config|) % 0x1_0000_0000_0000_0000
      && (4 + |config| < 0x1_0000_0000_0000_0000 ==> LongNumber(length, 0) == 4 + |config|)
      && Number(offset, 0) == (cd + 12 + |config|) % 0x1_0000_0000
  {
    hide Inject, FromLe, Number, LongNumber, Le, Signed, SizeField, Directory, LastRecord;
    OutcomeIs(apk, config, p);
    AssembledIs(apk, config, p);
    var cd, more := Directory(apk, p), 12 + |config|;
    size, length, offset := Le(U64(SizeField(apk, p) + more), 8), Le(4 + |config|, 8), Le(U32(cd + more), 4);
    ConfigNumber();
    MagicIs(apk, p);
    WrittenNumbers(U64(SizeField(apk, p) + more), size);
    if 4 + |config| < TWO64 {
      WrittenNumbers(4 + |config|, length);
    }
    WrittenNumber(U32(cd + more), offset);
  }

  lemma MagicIs(apk: seq<Byte>, p: nat)
    requires Signed(apk, p)
    ensures apk[Directory(apk, p) - 16..Directory(apk, p)] == MAGIC
  {
  }

  lemma AssembledIs(apk: seq<Byte>, config: seq<Byte>, p: nat)
    requires LastRecord(apk, p) && Signed(apk, p) && 24 <= SizeField(apk, p) <= Directory(apk, p) - 8 && Directory(apk, p) <= p
    ensures var cd := Directory(apk, p); var start, more := cd - 8 - SizeField(apk, p), 12 + |config|;
      Inject(apk, config)
      == Ok(Assemble(apk[..start], Le(U64(SizeField(apk, p) + more), 8), PairBytes(Pair(CONFIG_ID, config)),
                     apk[start + 8..cd - 24], apk[cd..p + 16], Le(U32(cd + more), 4), apk[p + 20..]))
  {
    hide FromLe, Assemble, Wrap64, U64, U32, LastSig, Number, LongNumber, Le, PairBytes;
    LastRecordIs(apk, p);
    NumberIs(apk, p + 16);
    NumberBound(apk, p + 16);
    var cd := Directory(apk, p);
    LongNumberIs(apk, cd - 24);
    LongNumberBound(apk, cd - 24);
    WrappedStart(cd - 8, LongNumber(apk, cd - 24));
  }

  lemma WrittenNumber(v: nat, s: seq<Byte>)
    requires v < 0x1_0000_0000 && s == Le(v, 4)
    ensures Number(s, 0) == v
  {
    hide Le, FromLe, Number;
    Widths();
    DecodeEncode(v, 4);
    NumberIs(s, 0);
    assert s[0..4] == s;
  }

  lemma WrittenNumbers(v: nat, s: seq<Byte>)
    requires v < TWO64 && s == Le(v, 8)
    ensures LongNumber(s, 0) == v
  {
    hide Le, FromLe, LongNumber;
    Widths();
    DecodeEncode(v, 8);
    LongNumberIs(s, 0);
    assert s[0..8] == s;
  }

  lemma ConfigNumber()
    ensures Le(CONFIG_ID, 4) == [0x77, 0x77, 0x77, 0x71]
  {
    hide Le;
    FromLeFour(0x77, 0x77, 0x77, 0x71);
    EncodeDecode([0x77, 0x77, 0x77, 0x71]);
  }

  // ------------------------------------------------------------- the format

  datatype Pair = Pair(id: nat, value: seq<Byte>)

  /** The parts of an APK: what precedes the block, the pairs, the central
      directory, and the record before and after its directory offset. */
  datatype Apk = Apk(entries: seq<Byte>, pairs: seq<Pair>, directory: seq<Byte>,
                     eocdHead: seq<Byte>, eocdTail: seq<Byte>)

  function PairBytes(p: Pair): (s: seq<Byte>)
    ensures |s| == 12 + |p.value|
  {
    Le(4 + |p.value|, 8) + Le(p.id, 4) + p.value
  }

  function PairsBytes(ps: seq<Pair>): seq<Byte> {
    if ps == [] then [] else PairBytes(ps[0]) + PairsBytes(ps[1..])
  }

  function BlockSize(ps: seq<Pair>): nat { |PairsBytes(ps)| + 24 }

  function DirectoryOffset(a: Apk): nat { |a.entries| + 8 + BlockSize(a.pairs) }

  function Block(ps: seq<Pair>): seq<Byte> {
    Le(BlockSize(ps), 8) + PairsBytes(ps) + (Le(BlockSize(ps), 8) + MAGIC)
  }

  function EocdBody(a: Apk): seq<Byte> {
    a.eocdHead + Le(DirectoryOffset(a), 4) + a.eocdTail
  }

  function Serialize(a: Apk): seq<Byte> {
    a.entries + Block(a.pairs) + (a.directory + (SIG + EocdBody(a)))
  }

  ghost predicate SigFree(s: seq<Byte>) {
    forall i: nat :: !SigAt(s, i)
  }

  ghost predicate WellFormed(a: Apk) {
    && |a.eocdHead| == 12 && DirectoryOffset(a) < TWO32 && SigFree(EocdBody(a))
    && forall i | 0 <= i < |a.pairs| :: a.pairs[i].id < TWO32
  }

  function ParsePairs(s: seq<Byte>): Option<seq<Pair>>
    decreases |s|
  {
    if s == [] then Some([])
    else if |s| < 12 then None
    else
      var length := FromLe(s[..8]);
      if length < 4 || 8 + length > |s| then None
      else match ParsePairs(s[8 + length..])
        case None => None
        case Some(rest) => Some([Pair(FromLe(s[8..12]), s[12..8 + length])] + rest)
  }

  /** What a reader of the file does: find the record, follow its offset to the
      directory, check magic and both sizes in front of it, read the pairs. */
  function Parse(s: seq<Byte>): Option<Apk> {
    var p := LastSig(s, |s|);
    if p == -1 || p + 20 > |s| then None
    else
      var cd := FromLe(s[p + 16..p + 20]);
      if cd < 32 || cd > p || s[cd - 16..cd] != MAGIC then None
      else
        var size := FromLe(s[cd - 24..cd - 16]);
        if size < 24 || cd < 8 + size || FromLe(s[cd - 8 - size..cd - size]) != size then None
        else match ParsePairs(s[cd - size..cd - 24])
          case None => None
          case Some(pairs) => Some(Apk(s[..cd - 8 - size], pairs, s[cd..p], s[p + 4..p + 16], s[p + 20..]))
  }

  // ------------------------------------------------------------- parsing inverts serializing

  lemma {:induction false} ParsePairsBytes(ps: seq<Pair>)
    requires |PairsBytes(ps)| < TWO32 && forall i | 0 <= i < |ps| :: ps[i].id < TWO32
    ensures ParsePairs(PairsBytes(ps)) == Some(ps)
  {
    assert ParsePairs([]) == Some([]);
    hide Pow256, Le, FromLe, ParsePairs, PairBytes;
    if ps != [] {
      var p, rest := ps[0], PairsBytes(ps[1..]);
      ParsePairsBytes(ps[1..]);
      Widths();
      ParseFirstPair(p, rest);
      assert [p] + ps[1..] == ps;
    }
  }

  lemma ParseFirstPair(p: Pair, rest: seq<Byte>)
    requires 12 + |p.value| < Pow256(8) && p.id < Pow256(4) && ParsePairs(rest).Some?
    ensures ParsePairs(PairBytes(p) + rest) == Some([p] + ParsePairs(rest).value)
  {
    hide Pow256, Le, FromLe;
    var s := PairBytes(p) + rest;
    DecodeEncode(4 + |p.value|, 8);
    DecodeEncode(p.id, 4);
    assert s[..8] == Le(4 + |p.value|, 8);
    assert s[8..12] == Le(p.id, 4);
    assert s[12..12 + |p.value|] == p.value;
    assert s[12 + |p.value|..] == rest;
  }

  lemma FirstPairSound(s: seq<Byte>, length: nat)
    requires 8 <= |s| && length == FromLe(s[..8]) && 4 <= length && 8 + length <= |s|
    ensures PairBytes(Pair(FromLe(s[8..12]), s[12..8 + length])) == s[..8 + length]
    ensures FromLe(s[8..12]) < TWO32
  {
    hide Le, FromLe, Pow256;
    EncodeDecode(s[..8]);
    EncodeDecode(s[8..12]);
    FromLeBound(s[8..12]);
    Widths();
  }

  lemma {:induction false} ParsePairsSound(s: seq<Byte>)
    requires ParsePairs(s).Some?
    ensures PairsBytes(ParsePairs(s).value) == s
    ensures forall i | 0 <= i < |ParsePairs(s).value| :: ParsePairs(s).value[i].id < TWO32
    decreases |s|
  {
    hide Le, FromLe, PairBytes;
    if s != [] {
      var length := FromLe(s[..8]);
      var rest := s[8 + length..];
      var p := Pair(FromLe(s[8..12]), s[12..8 + length]);
      ParsePairsSound(rest);
      FirstPairSound(s, length);
      var ps := ParsePairs(s).value;
      assert ps == [p] + ParsePairs(rest).value;
      assert ps[1..] == ParsePairs(rest).value;
      assert s == s[..8 + length] + rest;
    }
  }

  lemma LastSigIs(s: seq<Byte>, x: seq<Byte>, body: seq<Byte>)
    requires s == x + (SIG + body) && SigFree(body)
    ensures LastSig(s, |s|) == |x|
  {
    assert SigAt(s, |x|);
    forall i: nat | |x| < i < |s|
      ensures !SigAt(s, i)
    {
      if SigAt(s, i) {
        assert i >= |x| + 4;
        assert SigAt(body, i - |x| - 4);
      }
    }
  }

  lemma {:induction false} AfterLastSig(s: seq<Byte>)
    requires LastSig(s, |s|) >= 0
    ensures var p := LastSig(s, |s|); SigFree(s[p + 4..]) && s == s[..p] + (SIG + s[p + 4..])
  {
    var p := LastSig(s, |s|);
    assert s[p..p + 4] == SIG;
    var body := s[p + 4..];
    forall i: nat
      ensures !SigAt(body, i)
    {
      if SigAt(body, i) {
        assert SigAt(s, p + 4 + i);
      }
    }
  }

  /** Where the parts of a serialized APK lie. */
  lemma Layout(s: seq<Byte>, entries: seq<Byte>, size: seq<Byte>, pairs: seq<Byte>,
               directory: seq<Byte>, record: seq<Byte>, cd: nat, p: nat)
    requires |size| == 8 && s == entries + (size + pairs + (size + MAGIC)) + (directory + record)
    requires cd == |entries| + 32 + |pairs| && p == cd + |directory|
    ensures |s| == p + |record|
    ensures s[..|entries|] == entries && s[|entries|..|entries| + 8] == size && s[|entries| + 8..cd - 24] == pairs
    ensures s[cd - 24..cd - 16] == size && s[cd - 16..cd] == MAGIC && s[cd..p] == directory && s[p..] == record
  {
    var n, m := |entries|, |pairs|;
    var block := size + pairs + (size + MAGIC);
    BlockLayout(block, size, pairs);
    assert s[..n] == entries && s[n..cd] == block && s[cd..] == directory + record;
    Within(s, n, cd, 0, 8);
    Within(s, n, cd, 8, 8 + m);
    Within(s, n, cd, 8 + m, 16 + m);
    Within(s, n, cd, 16 + m, 32 + m);
    assert s[cd..p] == s[cd..][..|directory|] && s[p..] == s[cd..][|directory|..];
  }

  lemma BlockLayout(block: seq<Byte>, size: seq<Byte>, pairs: seq<Byte>)
    requires |size| == 8 && block == size + pairs + (size + MAGIC)
    ensures var m := |pairs|;
            && |block| == 32 + m && block[0..8] == size && block[8..8 + m] == pairs
            && block[8 + m..16 + m] == size && block[16 + m..32 + m] == MAGIC
  {
  }

  lemma RecordLayout(record: seq<Byte>, head: seq<Byte>, offset: seq<Byte>, tail: seq<Byte>)
    requires |head| == 12 && |offset| == 4 && record == SIG + (head + offset + tail)
    ensures record[4..16] == head && record[16..20] == offset && record[20..] == tail
    ensures record[..16] == SIG + head
  {
  }

  /** What a search for the record and the reads around the directory find in a
      file: the directory at `cd`, the record at `p`, and the block that the two
      sizes describe between `entries` and `cd`. */
  predicate Found(s: seq<Byte>, p: nat, cd: nat, a: Apk, pairs: seq<Byte>) {
    var start := |a.entries|;
    && LastSig(s, |s|) == p && p + 20 <= |s| && cd == start + 32 + |pairs| && p == cd + |a.directory| && cd < TWO32
    && FromLe(s[p + 16..p + 20]) == cd && s[cd - 16..cd] == MAGIC
    && FromLe(s[cd - 24..cd - 16]) == |pairs| + 24 == FromLe(s[start..start + 8])
    && s[..start] == a.entries && s[start + 8..cd - 24] == pairs
    && s[cd..p] == a.directory && s[p + 4..p + 16] == a.eocdHead && s[p + 20..] == a.eocdTail
    && s[cd..p + 16] == a.directory + (SIG + a.eocdHead)
  }

  lemma RecordAt(s: seq<Byte>, p: nat, record: seq<Byte>, head: seq<Byte>, offset: seq<Byte>, tail: seq<Byte>)
    requires |head| == 12 && |offset| == 4 && record == SIG + (head + offset + tail)
    requires p <= |s| && s[p..] == record
    ensures p + 20 <= |s| && s[p + 4..p + 16] == head && s[p + 16..p + 20] == offset && s[p + 20..] == tail
    ensures s[p..p + 16] == SIG + head
  {
    RecordLayout(record, head, offset, tail);
    assert s[p + 4..p + 16] == s[p..][4..16];
    assert s[p + 16..p + 20] == s[p..][16..20];
    assert s[p + 20..] == s[p..][20..];
    assert s[p..p + 16] == s[p..][..16];
  }

  lemma SizesDecode(a: Apk)
    requires DirectoryOffset(a) < TWO32
    ensures FromLe(Le(DirectoryOffset(a), 4)) == DirectoryOffset(a)
    ensures FromLe(Le(BlockSize(a.pairs), 8)) == BlockSize(a.pairs)
  {
    hide Le, FromLe, PairsBytes, Pow256;
    Widths();
    DecodeEncode(DirectoryOffset(a), 4);
    DecodeEncode(BlockSize(a.pairs), 8);
  }

  lemma RecordIsLast(a: Apk)
    requires WellFormed(a)
    ensures LastSig(Serialize(a), |Serialize(a)|) == DirectoryOffset(a) + |a.directory|
  {
    hide Le, PairsBytes, SigFree, LastSig;
    var before, record := a.entries + Block(a.pairs) + a.directory, SIG + EocdBody(a);
    assert Serialize(a) == before + record;
    LastSigIs(Serialize(a), before, EocdBody(a));
  }

  function Shape(entries: seq<Byte>, size: seq<Byte>, pairs: seq<Byte>, directory: seq<Byte>,
                 head: seq<Byte>, offset: seq<Byte>, tail: seq<Byte>): seq<Byte> {
    entries + (size + pairs + (size + MAGIC)) + (directory + (SIG + (head + offset + tail)))
  }

  lemma SerializeShape(a: Apk)
    ensures Serialize(a) == Shape(a.entries, Le(BlockSize(a.pairs), 8), PairsBytes(a.pairs), a.directory,
                                  a.eocdHead, Le(DirectoryOffset(a), 4), a.eocdTail)
    ensures BlockSize(a.pairs) == |PairsBytes(a.pairs)| + 24
    ensures DirectoryOffset(a) == |a.entries| + 32 + |PairsBytes(a.pairs)|
  {
    hide Le, PairsBytes;
  }

  lemma {:induction false} ShapeIsFound(s: seq<Byte>, a: Apk, size: seq<Byte>, pairs: seq<Byte>, offset: seq<Byte>, cd: nat)
    requires |size| == 8 && |offset| == 4 && |a.eocdHead| == 12
    requires s == Shape(a.entries, size, pairs, a.directory, a.eocdHead, offset, a.eocdTail)
    requires cd == |a.entries| + 32 + |pairs| < TWO32 && LastSig(s, |s|) == cd + |a.directory|
    requires FromLe(size) == |pairs| + 24 && FromLe(offset) == cd
    ensures Found(s, cd + |a.directory|, cd, a, pairs)
  {
    hide FromLe, LastSig;
    var p, record := cd + |a.directory|, SIG + (a.eocdHead + offset + a.eocdTail);
    Layout(s, a.entries, size, pairs, a.directory, record, cd, p);
    RecordAt(s, p, record, a.eocdHead, offset, a.eocdTail);
    JoinSlices(s, cd, p, p + 16);
  }

  lemma JoinSlices(s: seq<Byte>, i: nat, j: nat, k: nat)
    requires i <= j <= k <= |s|
    ensures s[i..k] == s[i..j] + s[j..k]
  {
  }

  lemma SerializedIsFound(a: Apk)
    requires WellFormed(a)
    ensures Found(Serialize(a), DirectoryOffset(a) + |a.directory|, DirectoryOffset(a), a, PairsBytes(a.pairs))
  {
    hide Le, FromLe, PairsBytes, SigFree, LastSig, Serialize, Shape, Found, EocdBody, BlockSize;
    SizesDecode(a);
    RecordIsLast(a);
    SerializeShape(a);
    ShapeIsFound(Serialize(a), a, Le(BlockSize(a.pairs), 8), PairsBytes(a.pairs), Le(DirectoryOffset(a), 4), DirectoryOffset(a));
  }

  lemma ParseFound(s: seq<Byte>, p: nat, cd: nat, a: Apk, pairs: seq<Byte>)
    requires Found(s, p, cd, a, pairs) && ParsePairs(pairs) == Some(a.pairs)
    ensures Parse(s) == Some(a)
  {
    hide LastSig, FromLe, ParsePairs;
  }

  function Rebuilt(a: Apk, size: nat, pair: seq<Byte>, rest: seq<Byte>, cd: nat): seq<Byte> {
    Assemble(a.entries, Le(size, 8), pair, rest, a.directory + (SIG + a.eocdHead), Le(cd, 4), a.eocdTail)
  }

  lemma InjectFound(s: seq<Byte>, p: nat, cd: nat, a: Apk, pairs: seq<Byte>, config: seq<Byte>)
    requires Found(s, p, cd, a, pairs) && cd + 12 + |config| < TWO32
    ensures var pair := PairBytes(Pair(CONFIG_ID, config));
      Inject(s, config) == Ok(Rebuilt(a, |pairs| + 24 + |pair|, pair, pairs, cd + |pair|))
  {
    hide LastSig, FromLe, Le, PairBytes, Wrap64, U64, U32, Assemble;
    SmallNumbers(|a.entries|);
    SmallNumbers(|pairs| + 24 + (12 + |config|));
    SmallNumbers(cd + (12 + |config|));
    assert cd - 8 - (|pairs| + 24) == |a.entries|;
  }

  lemma ParseSerialize(a: Apk)
    requires WellFormed(a)
    ensures Parse(Serialize(a)) == Some(a)
  {
    hide Serialize, PairsBytes, ParsePairs, Found, Parse, SigFree, EocdBody;
    SerializedIsFound(a);
    ParsePairsBytes(a.pairs);
    ParseFound(Serialize(a), DirectoryOffset(a) + |a.directory|, DirectoryOffset(a), a, PairsBytes(a.pairs));
  }

  function AddConfig(a: Apk, config: seq<Byte>): Apk {
    a.(pairs := [Pair(CONFIG_ID, config)] + a.pairs)
  }

  lemma AddedPair(a: Apk, config: seq<Byte>)
    ensures var b, pair := AddConfig(a, config), PairBytes(Pair(CONFIG_ID, config));
      && PairsBytes(b.pairs) == pair + PairsBytes(a.pairs)
      && BlockSize(b.pairs) == |PairsBytes(a.pairs)| + 24 + |pair| && DirectoryOffset(b) == DirectoryOffset(a) + |pair|
      && |pair| == 12 + |config|
      && (forall size, rest, cd :: Rebuilt(b, size, pair, rest, cd) == Rebuilt(a, size, pair, rest, cd))
  {
    assert AddConfig(a, config).pairs[1..] == a.pairs;
  }

  lemma SerializeIs(b: Apk, pair: seq<Byte>, rest: seq<Byte>)
    requires PairsBytes(b.pairs) == pair + rest
    ensures Serialize(b) == Rebuilt(b, BlockSize(b.pairs), pair, rest, DirectoryOffset(b))
  {
    hide Le, PairsBytes;
  }

  /** Injection into a well-formed file yields exactly the file with one more
      pair in front of the others: both sizes and the directory offset follow,
      every other byte is where the format puts it. */
  lemma InjectSerialized(a: Apk, config: seq<Byte>)
    requires WellFormed(a) && DirectoryOffset(AddConfig(a, config)) < TWO32
    ensures Inject(Serialize(a), config) == Ok(Serialize(AddConfig(a, config)))
  {
    hide *;
    var pair, pairs, b := PairBytes(Pair(CONFIG_ID, config)), PairsBytes(a.pairs), AddConfig(a, config);
    SerializedIsFound(a);
    AddedPair(a, config);
    InjectFound(Serialize(a), DirectoryOffset(a) + |a.directory|, DirectoryOffset(a), a, pairs, config);
    SerializeIs(b, pair, pairs);
  }

  // ------------------------------------------------------------- for every file that parses

  lemma CutApart(s: seq<Byte>, start: nat, cd: nat, p: nat)
    requires start + 32 <= cd <= p && p + 20 <= |s| && s[cd - 16..cd] == MAGIC && s[p..p + 4] == SIG
    requires s[start..start + 8] == s[cd - 24..cd - 16]
    ensures s == Shape(s[..start], s[start..start + 8], s[start + 8..cd - 24], s[cd..p],
                       s[p + 4..p + 16], s[p + 16..p + 20], s[p + 20..])
  {
    var size := s[start..start + 8];
    assert s[start..cd] == size + s[start + 8..cd - 24] + (size + MAGIC);
    assert s[p..] == SIG + (s[p + 4..p + 16] + s[p + 16..p + 20] + s[p + 20..]);
    assert s[cd..] == s[cd..p] + s[p..];
    assert s == s[..start] + s[start..cd] + s[cd..];
  }

  lemma SameEncoding(x: seq<Byte>, y: seq<Byte>)
    requires |x| == |y| && FromLe(x) == FromLe(y)
    ensures x == y && x == Le(FromLe(x), |x|)
  {
    EncodeDecode(x);
    EncodeDecode(y);
  }

  /** The steps a successful parse went through. */
  lemma ParseSteps(s: seq<Byte>) returns (start: nat, cd: nat, p: nat)
    requires Parse(s).Some?
    ensures start + 32 <= cd <= p && p + 20 <= |s| && LastSig(s, |s|) == p
    ensures s[cd - 16..cd] == MAGIC && FromLe(s[p + 16..p + 20]) == cd
    ensures FromLe(s[start..start + 8]) == cd - 8 - start == FromLe(s[cd - 24..cd - 16])
    ensures ParsePairs(s[start + 8..cd - 24]).Some?
    ensures Parse(s).value == Apk(s[..start], ParsePairs(s[start + 8..cd - 24]).value, s[cd..p], s[p + 4..p + 16], s[p + 20..])
  {
    hide FromLe, ParsePairs, LastSig;
    p := LastSig(s, |s|);
    cd := FromLe(s[p + 16..p + 20]);
    start := cd - 8 - FromLe(s[cd - 24..cd - 16]);
  }

  lemma RecordParts(s: seq<Byte>, p: nat)
    requires LastSig(s, |s|) == p && p + 20 <= |s|
    ensures s[p..p + 4] == SIG && SigFree(s[p + 4..p + 16] + s[p + 16..p + 20] + s[p + 20..])
  {
    hide LastSig, SigFree;
    AfterLastSig(s);
    assert s[p + 4..] == s[p + 4..p + 16] + s[p + 16..p + 20] + s[p + 20..];
  }

  /** A parsed file is the serialization of what was read, nothing is lost. */
  lemma ParseSound(s: seq<Byte>)
    requires Parse(s).Some?
    ensures WellFormed(Parse(s).value) && s == Serialize(Parse(s).value)
  {
    hide Le, FromLe, ParsePairs, PairsBytes, SigFree, LastSig, Parse, Serialize, Shape, BlockSize, DirectoryOffset;
    var a := Parse(s).value;
    var start, cd, p := ParseSteps(s);
    RecordParts(s, p);
    SameEncoding(s[start..start + 8], s[cd - 24..cd - 16]);
    SameEncoding(s[p + 16..p + 20], s[p + 16..p + 20]);
    OffsetBound(s[p + 16..p + 20]);
    ParsePairsSound(s[start + 8..cd - 24]);
    SerializeShape(a);
    CutApart(s, start, cd, p);
  }

  lemma OffsetBound(x: seq<Byte>)
    requires |x| == 4
    ensures FromLe(x) < TWO32
  {
    hide FromLe, Pow256;
    FromLeBound(x);
    Widths();
  }

  /** For every file that parses and every configuration that leaves the
      directory within reach of a 32-bit offset, the injected file is the old
      one with the new pair in front; it parses again, to exactly that, if and
      only if the new offset does not spell a record signature. */
  lemma InjectParsed(s: seq<Byte>, config: seq<Byte>)
    requires Parse(s).Some? && DirectoryOffset(AddConfig(Parse(s).value, config)) < TWO32
    ensures var b := AddConfig(Parse(s).value, config);
      && Inject(s, config) == Ok(Serialize(b))
      && (Parse(Serialize(b)) == Some(b) <==> SigFree(EocdBody(b)))
  {
    hide Inject, Serialize, Parse, SigFree;
    var a := Parse(s).value;
    var b := AddConfig(a, config);
    ParseSound(s);
    InjectSerialized(a, config);
    if SigFree(EocdBody(b)) {
      ParseSerialize(b);
    }
    if Parse(Serialize(b)) == Some(b) {
      ParseSound(Serialize(b));
    }
  }

  /** A file whose record holds three bytes of the signature right before the offset. */
  const TRAP: Apk := Apk([], [], [], [0, 0, 0, 0, 0, 0, 0, 0, 0, 0x50, 0x4b, 0x05], [0, 0])

  /** The condition is needed: a configuration of 218 bytes moves the directory to 262,
      whose lowest byte completes a second signature. */
  lemma OffsetCanSpellTheSignature(config: seq<Byte>)
    requires |config| == 218
    ensures var b := AddConfig(TRAP, config);
      && Parse(Serialize(TRAP)) == Some(TRAP)
      && Inject(Serialize(TRAP), config) == Ok(Serialize(b)) && Parse(Serialize(b)) == None
  {
    hide Inject, Serialize, Parse, SigFree, EocdBody, PairsBytes, PairBytes;
    var b := AddConfig(TRAP, config);
    TrapOffsets(config);
    TrapBefore();
    ParseSerialize(TRAP);
    InjectParsed(Serialize(TRAP), config);
    TrapAfter(b);
  }

  lemma TrapOffsets(config: seq<Byte>)
    requires |config| == 218
    ensures DirectoryOffset(TRAP) == 32 && DirectoryOffset(AddConfig(TRAP, config)) == 262
  {
    hide PairBytes;
    AddedPair(TRAP, config);
  }

  lemma TrapBefore()
    ensures WellFormed(TRAP)
  {
    assert Le(32, 4) == [32, 0, 0, 0] by {
      assert Le(32, 4) == [32] + ([0] + ([0] + ([0] + Le(0, 0))));
    }
    var body := EocdBody(TRAP);
    assert body == TRAP.eocdHead + [32, 0, 0, 0] + [0, 0];
    forall i: nat
      ensures !SigAt(body, i)
    {
      assert i + 4 <= |body| ==> body[i + 3] != SIG[3];
    }
  }

  /** The last signature is so close to the end that no record fits behind it. */
  lemma TrapAfter(b: Apk)
    requires b.eocdHead == TRAP.eocdHead && b.eocdTail == TRAP.eocdTail && DirectoryOffset(b) == 262
    ensures Parse(Serialize(b)) == None
  {
    hide DirectoryOffset, Block;
    var s, body := Serialize(b), EocdBody(b);
    assert Le(262, 4)[0] == 6;
    assert |body| == 18 && SigAt(body, 9);
    var before := b.entries + Block(b.pairs) + b.directory + SIG;
    assert s == before + body;
    assert SigAt(s, |before| + 9);
    assert LastSig(s, |s|) >= |before| + 9;
  }

  // ------------------------------------------------------------- repeated injection

  function InjectAll(s: seq<Byte>, configs: seq<seq<Byte>>): Outcome
    decreases |configs|
  {
    if configs == [] then Ok(s)
    else match Inject(s, configs[0])
      case Ok(t) => InjectAll(t, configs[1..])
      case failure => failure
  }

  /** The pairs of the configurations, newest first. */
  function Stacked(configs: seq<seq<Byte>>): seq<Pair> {
    if configs == [] then [] else Stacked(configs[1..]) + [Pair(CONFIG_ID, configs[0])]
  }

  /** Every file on the way keeps its directory within reach and its record the last one. */
  ghost predicate Stackable(a: Apk, configs: seq<seq<Byte>>)
    decreases |configs|
  {
    configs == [] || (WellFormed(AddConfig(a, configs[0])) && Stackable(AddConfig(a, configs[0]), configs[1..]))
  }

  lemma {:induction false} InjectionsStack(a: Apk, configs: seq<seq<Byte>>)
    requires WellFormed(a) && Stackable(a, configs)
    ensures InjectAll(Serialize(a), configs) == Ok(Serialize(a.(pairs := Stacked(configs) + a.pairs)))
    ensures Parse(Serialize(a.(pairs := Stacked(configs) + a.pairs))) == Some(a.(pairs := Stacked(configs) + a.pairs))
    decreases |configs|
  {
    hide Inject, Serialize, Parse, SigFree, EocdBody, PairsBytes;
    if configs == [] {
      assert [] + a.pairs == a.pairs;
      ParseSerialize(a);
    } else {
      var b := AddConfig(a, configs[0]);
      InjectSerialized(a, configs[0]);
      InjectionsStack(b, configs[1..]);
      assert Stacked(configs[1..]) + b.pairs == Stacked(configs) + a.pairs;
    }
  }
}
