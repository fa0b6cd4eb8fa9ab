/** The Bitcoin-style Merkle root: leaves are hex strings, every hash is a
    double SHA-256, levels are reduced pairwise with the last node of an odd
    level paired with itself, and the root is byte-reversed for display.

    SHA-256 is not modelled: it is the parameter `H`, any function from bytes to
    32-byte digests. */
module Merkle {
  import opened Hex

  type Digest = d: seq<byte> | |d| == 32 witness seq(32, _ => 0 as byte)

  /** The hash primitive `hashlib.sha256(...).digest()`. */
  type Sha256 = seq<byte> -> Digest

  // ---------------------------------------------------------------------------
  // Hash helpers
  // ---------------------------------------------------------------------------

  /** `__hashIteration__`: decode both hex digests, concatenate them (first one
      first), hash twice and encode. */
  function HashIteration(H: Sha256, firstHash: string, secondHash: string): (res: Option<string>)
    ensures res.Some? <==> IsHex(firstHash) && IsHex(secondHash)
    ensures res.Some? ==>
      |res.value| == 64 && IsLowerHex(res.value) &&
      Unhexlify(res.value) == Some(H(H(Unhexlify(firstHash).value + Unhexlify(secondHash).value)))
  {
    match (Unhexlify(firstHash), Unhexlify(secondHash))
    case (Some(a), Some(b)) =>
      var finalHash := H(H(a + b));
      UnhexlifyHexlify(finalHash);
      Some(Hexlify(finalHash))
    case _ => None
  }

  /** `transaction_hash`: decode a hex record, hash twice and encode. */
  function TransactionHash(H: Sha256, transaction: string): (res: Option<string>)
    ensures res.Some? <==> IsHex(transaction)
    ensures res.Some? ==>
      |res.value| == 64 && IsLowerHex(res.value) &&
      Unhexlify(res.value) == Some(H(H(Unhexlify(transaction).value)))
  {
    match Unhexlify(transaction)
    case Some(bs) =>
      var finalHash := H(H(bs));
      UnhexlifyHexlify(finalHash);
      Some(Hexlify(finalHash))
    case None => None
  }

  /** `[::-1]` on bytes. */
  function Reverse(bs: seq<byte>): (r: seq<byte>)
    ensures |r| == |bs|
    ensures forall i :: 0 <= i < |bs| ==> r[i] == bs[|bs| - 1 - i]
  {
    if bs == [] then [] else Reverse(bs[1..]) + [bs[0]]
  }

  lemma ReverseReverse(bs: seq<byte>)
    ensures Reverse(Reverse(bs)) == bs
  {
  }

  /** `shift_hash`: reverse the byte order of a hex digest. */
  function ShiftHash(hash: string): (res: Option<string>)
    ensures res.Some? <==> IsHex(hash)
    ensures res.Some? ==>
      |res.value| == |hash| && IsLowerHex(res.value) &&
      Unhexlify(res.value) == Some(Reverse(Unhexlify(hash).value))
  {
    match Unhexlify(hash)
    case Some(bs) =>
      UnhexlifyHexlify(Reverse(bs));
      Some(Hexlify(Reverse(bs)))
    case None => None
  }

  /** Shifting twice gives back any string `hexlify` can produce. */
  lemma ShiftHashInvolution(hash: string)
    requires IsLowerHex(hash)
    ensures ShiftHash(hash).Some? && ShiftHash(ShiftHash(hash).value) == Some(hash)
  {
    var once := ShiftHash(hash).value;
    var bs := Unhexlify(hash).value;
    ReverseReverse(bs);
    HexlifyUnhexlify(hash);
  }

  /** It is the bytes that are reversed, not the characters: digit pair `i`
      of the result is digit pair `m-1-i` of the input, in its original order. */
  lemma ShiftHashSwapsPairs(hash: string, i: int)
    requires IsLowerHex(hash) && 0 <= i < |hash| / 2
    ensures var m := |hash| / 2; var out := ShiftHash(hash).value;
      out[2 * i] == hash[2 * (m - 1 - i)] && out[2 * i + 1] == hash[2 * (m - 1 - i) + 1]
  {
    var m := |hash| / 2;
    var bs := Unhexlify(hash).value;
    var j := m - 1 - i;
    HexlifyAt(Reverse(bs), i);
    UnhexlifyAt(hash, j);
    var v := bs[j] as nat;
    assert v / 16 == DigitValue(hash[2 * j]) && v % 16 == DigitValue(hash[2 * j + 1]);
    LowerDigitOfValue(hash[2 * j]);
    LowerDigitOfValue(hash[2 * j + 1]);
  }

  // ---------------------------------------------------------------------------
  // Levels of the tree
  // ---------------------------------------------------------------------------

  /** How two nodes of a level combine into one node of the next level;
      `None` is a decoding error. */
  type PairHash = (string, string) -> Option<string>

  /** The pair hash of the source: `__hashIteration__` with the primitive fixed. */
  function Combiner(H: Sha256): PairHash
  {
    (a: string, b: string) => HashIteration(H, a, b)
  }

  predicate AllHex(level: seq<string>)
  {
    forall i :: 0 <= i < |level| ==> IsHex(level[i])
  }

  /** The index paired with `2i` in a level of `len` nodes: `2i+1`, or `2i`
      itself for the last node of an odd level. */
  function Partner(len: int, i: int): int
  {
    if 2 * i + 1 < len then 2 * i + 1 else 2 * i
  }

  /** One reduction round, read from the front: pair up `(0,1), (2,3), ...`, and
      pair a last odd node with itself. */
  function NextLevel(combine: PairHash, level: seq<string>): (res: Option<seq<string>>)
    ensures res.Some? ==> |res.value| == (|level| + 1) / 2
  {
    if |level| == 0 then Some([])
    else if |level| == 1 then
      match combine(level[0], level[0])
      case None => None
      case Some(c) => Some([c])
    else
      match combine(level[0], level[1])
      case None => None
      case Some(c) =>
        match NextLevel(combine, level[2..])
        case None => None
        case Some(rest) => Some([c] + rest)
  }

  /** A level of two or more nodes reduces to the combination of its first two
      followed by the reduction of the rest. */
  lemma NextLevelCons(combine: PairHash, level: seq<string>)
    requires |level| >= 2 && NextLevel(combine, level).Some?
    ensures combine(level[0], level[1]).Some? && NextLevel(combine, level[2..]).Some?
    ensures NextLevel(combine, level).value ==
      [combine(level[0], level[1]).value] + NextLevel(combine, level[2..]).value
  {
  }

  /** Element `i` of the next level combines elements `2i` and `2i+1`; on an odd
      level the last element combines the last node with itself. */
  lemma {:induction false} NextLevelAt(combine: PairHash, level: seq<string>, i: int)
    requires NextLevel(combine, level).Some? && 0 <= i < (|level| + 1) / 2
    ensures 2 * i + 1 == |level| ==> 2 * i == |level| - 1
    ensures combine(level[2 * i], level[Partner(|level|, i)]).Some?
    ensures NextLevel(combine, level).value[i] == combine(level[2 * i], level[Partner(|level|, i)]).value
  {
    if |level| >= 2 {
      NextLevelCons(combine, level);
      if i > 0 {
        NextLevelAt(combine, level[2..], i - 1);
        ShiftPair(level, i);
      }
    }
  }

  /** Pair `i` of a level is pair `i-1` of the level without its first two nodes. */
  lemma ShiftPair(level: seq<string>, i: int)
    requires |level| >= 2 && 0 < i < (|level| + 1) / 2
    ensures level[2..][2 * (i - 1)] == level[2 * i]
    ensures level[2..][Partner(|level| - 2, i - 1)] == level[Partner(|level|, i)]
  {
  }

  /** The source's round succeeds exactly when every node decodes. */
  lemma {:induction false} NextLevelDefined(H: Sha256, level: seq<string>)
    ensures NextLevel(Combiner(H), level).Some? <==> AllHex(level)
  {
    if |level| >= 2 {
      NextLevelDefined(H, level[2..]);
      AllHexSplit(level);
    }
  }

  lemma AllHexSplit(level: seq<string>)
    requires |level| >= 2
    ensures AllHex(level) <==> IsHex(level[0]) && IsHex(level[1]) && AllHex(level[2..])
  {
    if IsHex(level[0]) && IsHex(level[1]) && AllHex(level[2..]) {
      forall i | 0 <= i < |level| ensures IsHex(level[i]) {
        if i >= 2 { assert level[i] == level[2..][i - 2]; }
      }
    }
  }

  /** Every node of a next level of the source is a 64-digit lower-case hex digest. */
  lemma NextLevelDigests(H: Sha256, level: seq<string>)
    requires AllHex(level)
    ensures NextLevel(Combiner(H), level).Some?
    ensures forall i :: 0 <= i < |NextLevel(Combiner(H), level).value| ==>
      |NextLevel(Combiner(H), level).value[i]| == 64 && IsLowerHex(NextLevel(Combiner(H), level).value[i])
  {
    NextLevelDefined(H, level);
    var next := NextLevel(Combiner(H), level).value;
    forall i | 0 <= i < |next| ensures |next[i]| == 64 && IsLowerHex(next[i]) {
      NextLevelAt(Combiner(H), level, i);
    }
  }

  /** An empty level reduces to an empty level: the source's recursion makes no
      progress on it, which is why a reduction needs at least one node. */
  lemma NextLevelOfEmpty(combine: PairHash)
    ensures NextLevel(combine, []) == Some([])
  {
  }

  /** `paired` holds the combinations of the pairs `(2j, 2j+1)` of `level`, in order. */
  predicate PairsOf(combine: PairHash, level: seq<string>, paired: seq<string>)
  {
    |paired| == |level| / 2 &&
    forall j :: 0 <= j < |paired| ==> combine(level[2 * j], level[2 * j + 1]) == Some(paired[j])
  }

  /** `built` is `paired`, followed on an odd level by the last node combined with itself. */
  predicate WithLast(combine: PairHash, level: seq<string>, paired: seq<string>, built: seq<string>)
  {
    if |level| % 2 == 0 then built == paired
    else
      combine(level[|level| - 1], level[|level| - 1]).Some? &&
      built == paired + [combine(level[|level| - 1], level[|level| - 1]).value]
  }

  /** What a pairing loop builds, the pairs in order and a doubled last node on
      an odd level, is the next level. */
  lemma PairsFormNextLevel(combine: PairHash, level: seq<string>, paired: seq<string>, built: seq<string>)
    requires PairsOf(combine, level, paired) && WithLast(combine, level, paired, built)
    ensures NextLevel(combine, level) == Some(built)
    decreases |level|
  {
    if |level| == 1 {
      assert built == [combine(level[0], level[0]).value];
    } else if |level| >= 2 {
      PairsShift(combine, level, paired);
      LastShift(combine, level, paired, built);
      PairsFormNextLevel(combine, level[2..], paired[1..], built[1..]);
      NextLevelFromRest(combine, level, built);
    }
  }

  lemma NextLevelFromRest(combine: PairHash, level: seq<string>, built: seq<string>)
    requires |level| >= 2 && |built| >= 1
    requires combine(level[0], level[1]) == Some(built[0])
    requires NextLevel(combine, level[2..]) == Some(built[1..])
    ensures NextLevel(combine, level) == Some(built)
  {
    assert built == [built[0]] + built[1..];
  }

  /** The pairs of a level without its first two nodes are the remaining pairs. */
  lemma PairsShift(combine: PairHash, level: seq<string>, paired: seq<string>)
    requires |level| >= 2 && PairsOf(combine, level, paired)
    ensures PairsOf(combine, level[2..], paired[1..])
  {
    forall j | 0 <= j < |paired| - 1
      ensures combine(level[2..][2 * j], level[2..][2 * j + 1]) == Some(paired[1..][j])
    {
      assert level[2..][2 * j] == level[2 * (j + 1)] && level[2..][2 * j + 1] == level[2 * (j + 1) + 1];
    }
  }

  lemma LastShift(combine: PairHash, level: seq<string>, paired: seq<string>, built: seq<string>)
    requires |level| >= 2 && PairsOf(combine, level, paired) && WithLast(combine, level, paired, built)
    ensures |built| >= 1 && combine(level[0], level[1]) == Some(built[0])
    ensures WithLast(combine, level[2..], paired[1..], built[1..])
  {
    var rest := level[2..];
    if |level| % 2 == 1 {
      assert rest[|rest| - 1] == level[|level| - 1];
      assert built[1..] == paired[1..] + [combine(level[|level| - 1], level[|level| - 1]).value];
    }
  }

  /** The reduction: repeat rounds until one node is left. */
  function ReduceLevels(combine: PairHash, level: seq<string>): (res: Option<string>)
    requires |level| >= 1
    decreases |level|
  {
    if |level| == 1 then Some(level[0])
    else
      match NextLevel(combine, level)
      case None => None
      case Some(next) => ReduceLevels(combine, next)
  }

  /** The source's reduction fails exactly when some node of two or more does
      not decode, and its result from two nodes up is a 64-digit lower-case hex digest. */
  lemma {:induction false} ReduceLevelsShape(H: Sha256, level: seq<string>)
    requires |level| >= 1
    ensures ReduceLevels(Combiner(H), level).Some? <==> |level| == 1 || AllHex(level)
    ensures |level| >= 2 && AllHex(level) ==>
      |ReduceLevels(Combiner(H), level).value| == 64 && IsLowerHex(ReduceLevels(Combiner(H), level).value)
    decreases |level|
  {
    NextLevelDefined(H, level);
    if |level| >= 2 && AllHex(level) {
      var next := NextLevel(Combiner(H), level).value;
      NextLevelDigests(H, level);
      assert AllHex(next);
      ReduceLevelsShape(H, next);
    }
  }

  /** `__merkleCalculation__`: build the next level with a loop, then recurse. */
  method MerkleCalculation(H: Sha256, hashList: seq<string>) returns (res: Option<string>)
    requires |hashList| >= 1
    ensures res == ReduceLevels(Combiner(H), hashList)
    decreases |hashList|
  {
    if |hashList| == 1 {
      return Some(hashList[0]);
    }
    var newHashList: seq<string> := [];
    var i := 0;
    while i < |hashList| - 1
      invariant 0 <= i <= |hashList| && i % 2 == 0
      invariant |newHashList| == i / 2
      invariant forall j :: 0 <= j < i / 2 ==>
        HashIteration(H, hashList[2 * j], hashList[2 * j + 1]).Some? &&
        newHashList[j] == HashIteration(H, hashList[2 * j], hashList[2 * j + 1]).value
    {
      var combined := HashIteration(H, hashList[i], hashList[i + 1]);
      if combined.None? {
        FailedPairFailsReduction(H, hashList, i);
        return None;
      }
      newHashList := newHashList + [combined.value];
      i := i + 2;
    }
    ghost var paired := newHashList;
    if |hashList| % 2 == 1 {
      var combined := HashIteration(H, hashList[|hashList| - 1], hashList[|hashList| - 1]);
      if combined.None? {
        FailedPairFailsReduction(H, hashList, |hashList| - 1);
        return None;
      }
      newHashList := newHashList + [combined.value];
    }
    PairsFormNextLevel(Combiner(H), hashList, paired, newHashList);
    res := MerkleCalculation(H, newHashList);
  }

  /** A pair that fails to combine makes the whole reduction fail. */
  lemma FailedPairFailsReduction(H: Sha256, level: seq<string>, i: int)
    requires |level| >= 2 && 0 <= i < |level|
    requires HashIteration(H, level[i], level[if i + 1 < |level| then i + 1 else i]).None?
    ensures ReduceLevels(Combiner(H), level) == None
  {
    NextLevelDefined(H, level);
  }

  // ---------------------------------------------------------------------------
  // The root
  // ---------------------------------------------------------------------------

  /** `binascii.Error` from a leaf or digest that is not hex, and the
      `RecursionError` of reducing an empty list. */
  datatype MerkleError = MalformedHex | EmptyTransactionList

  datatype Result = Ok(root: string) | Err(error: MerkleError)

  /** The root of a list of leaves taken as they are: reduce, then shift. */
  function RootOf(H: Sha256, leaves: seq<string>): Result
  {
    if |leaves| == 0 then Err(EmptyTransactionList)
    else
      match ReduceLevels(Combiner(H), leaves)
      case None => Err(MalformedHex)
      case Some(top) =>
        match ShiftHash(top)
        case None => Err(MalformedHex)
        case Some(out) => Ok(out)
  }

  /** The index of the first leaf that does not decode, or the length when all do. */
  function FirstUndecodable(ts: seq<string>): (j: nat)
    ensures j <= |ts|
    ensures forall i :: 0 <= i < j ==> IsHex(ts[i])
    ensures j < |ts| ==> !IsHex(ts[j])
  {
    if ts == [] || !IsHex(ts[0]) then 0 else 1 + FirstUndecodable(ts[1..])
  }

  /** The leaves with the first `j` of them replaced by their transaction hashes. */
  function HashPrefix(H: Sha256, ts: seq<string>, j: nat): seq<string>
    requires j <= |ts| && forall i :: 0 <= i < j ==> IsHex(ts[i])
  {
    seq(|ts|, i requires 0 <= i < |ts| => if i < j then TransactionHash(H, ts[i]).value else ts[i])
  }

  /** What `merkle_root` leaves in the list and what it returns. With hashing,
      each leaf is overwritten by its transaction hash in order until one fails
      to decode; without hashing the list is untouched. */
  function MerkleRootSpec(H: Sha256, ts: seq<string>, hashTransaction: bool): (out: (seq<string>, Result))
    ensures |out.0| == |ts|
    ensures !hashTransaction ==> out.0 == ts
    ensures hashTransaction && AllHex(ts) ==>
      forall i :: 0 <= i < |ts| ==> out.0[i] == TransactionHash(H, ts[i]).value
    ensures hashTransaction && !AllHex(ts) ==> out.1 == Err(MalformedHex)
    ensures out.1.Err? && out.1.error == EmptyTransactionList <==> ts == []
  {
    if !hashTransaction then (ts, RootOf(H, ts))
    else
      var j := FirstUndecodable(ts);
      var hashed := HashPrefix(H, ts, j);
      if j < |ts| then (hashed, Err(MalformedHex)) else (hashed, RootOf(H, hashed))
  }

  /** With hashing, the root exists exactly when the list is non-empty and
      every leaf is hex, and it is then a 64-character lower-case hex digest. */
  lemma HashedRootShape(H: Sha256, ts: seq<string>)
    ensures MerkleRootSpec(H, ts, true).1.Ok? <==> ts != [] && AllHex(ts)
    ensures MerkleRootSpec(H, ts, true).1.Ok? ==>
      |MerkleRootSpec(H, ts, true).1.root| == 64 && IsLowerHex(MerkleRootSpec(H, ts, true).1.root)
  {
    if ts != [] && AllHex(ts) {
      assert FirstUndecodable(ts) == |ts|;
      var hashed := HashPrefix(H, ts, |ts|);
      assert forall i :: 0 <= i < |hashed| ==> hashed[i] == TransactionHash(H, ts[i]).value;
      assert AllHex(hashed);
      ReduceLevelsShape(H, hashed);
      LowerHexIsHex(ReduceLevels(Combiner(H), hashed).value);
    }
  }

  /** Without hashing, the root exists exactly for one hex leaf or for two or
      more leaves that are all hex. It is lower-case hex: as long as the leaf in
      the first case, a 64-character digest in the second. */
  lemma UnhashedRootShape(H: Sha256, ts: seq<string>)
    ensures MerkleRootSpec(H, ts, false).1.Ok? <==>
      (|ts| == 1 && IsHex(ts[0])) || (|ts| >= 2 && AllHex(ts))
    ensures MerkleRootSpec(H, ts, false).1.Ok? ==>
      IsLowerHex(MerkleRootSpec(H, ts, false).1.root) &&
      (|ts| == 1 ==> |MerkleRootSpec(H, ts, false).1.root| == |ts[0]|) &&
      (|ts| >= 2 ==> |MerkleRootSpec(H, ts, false).1.root| == 64)
  {
    if ts != [] {
      ReduceLevelsShape(H, ts);
      if |ts| >= 2 && AllHex(ts) {
        LowerHexIsHex(ReduceLevels(Combiner(H), ts).value);
      }
    }
  }

  lemma LowerHexIsHex(s: string)
    requires IsLowerHex(s)
    ensures IsHex(s)
  {
  }

  /** `merkle_root`: optionally rewrite the caller's list in place with leaf
      hashes, then reduce and shift. */
  method MerkleRoot(H: Sha256, transactionList: array<string>, hashTransaction: bool := true)
    returns (res: Result)
    modifies transactionList
    ensures (transactionList[..], res) == MerkleRootSpec(H, old(transactionList[..]), hashTransaction)
  {
    ghost var original := transactionList[..];
    if hashTransaction {
      var i := 0;
      while i < transactionList.Length
        invariant 0 <= i <= transactionList.Length
        invariant forall k :: 0 <= k < i ==> IsHex(original[k])
        invariant transactionList[..] == HashPrefix(H, original, i)
      {
        var h := TransactionHash(H, transactionList[i]);
        if h.None? {
          assert FirstUndecodable(original) == i;
          return Err(MalformedHex);
        }
        transactionList[i] := h.value;
        i := i + 1;
      }
      assert FirstUndecodable(original) == |original|;
    }
    if transactionList.Length == 0 {
      return Err(EmptyTransactionList);
    }
    var top := MerkleCalculation(H, transactionList[..]);
    if top.None? {
      return Err(MalformedHex);
    }
    var shifted := ShiftHash(top.value);
    if shifted.None? {
      return Err(MalformedHex);
    }
    res := Ok(shifted.value);
  }

  // ---------------------------------------------------------------------------
  // Worked cases
  // ---------------------------------------------------------------------------

  /** A one-node level is its own root. */
  lemma SingleNodeIsRoot(combine: PairHash, h: string)
    ensures ReduceLevels(combine, [h]) == Some(h)
  {
  }

  /** A single leaf with hashing: the byte-reversed encoding of ONE double hash
      of the leaf's bytes. */
  lemma SingleLeafRoot(H: Sha256, leaf: string)
    requires IsHex(leaf)
    ensures MerkleRootSpec(H, [leaf], true).1 == Ok(Hexlify(Reverse(H(H(Unhexlify(leaf).value)))))
  {
    var h := TransactionHash(H, leaf).value;
    var hashed := HashPrefix(H, [leaf], 1);
    assert hashed == [h];
    var out := ShiftHash(h).value;
    HexlifyUnhexlify(out);
  }

  /** Three leaves: [A, B, C] reduce to combine(combine(A, B), combine(C, C)). */
  lemma ThreeLeaves(combine: PairHash, a: string, b: string, c: string)
    requires combine(a, b).Some? && combine(c, c).Some?
    ensures ReduceLevels(combine, [a, b, c]) == combine(combine(a, b).value, combine(c, c).value)
  {
    var level := [a, b, c];
    var ab, cc := combine(a, b).value, combine(c, c).value;
    assert level[2..] == [c];
    assert NextLevel(combine, [c]) == Some([cc]);
    assert NextLevel(combine, level) == Some([ab] + [cc]);
    var top := [ab, cc];
    assert [ab] + [cc] == top;
    assert top[2..] == [];
    assert ReduceLevels(combine, level) == ReduceLevels(combine, top);
    if combine(ab, cc).Some? {
      assert NextLevel(combine, top) == Some([combine(ab, cc).value] + []);
    }
  }

  /** Five leaves: the duplicate-last rule applies again at the second level,
      [A, B, C, D, E] -> [AB, CD, EE] -> [ABCD, EEEE] -> root. */
  lemma FiveLeaves(combine: PairHash, a: string, b: string, c: string, d: string, e: string)
    requires combine(a, b).Some? && combine(c, d).Some? && combine(e, e).Some?
    requires combine(combine(a, b).value, combine(c, d).value).Some?
    requires combine(combine(e, e).value, combine(e, e).value).Some?
    ensures var ab := combine(a, b).value;
      var cd := combine(c, d).value;
      var ee := combine(e, e).value;
      ReduceLevels(combine, [a, b, c, d, e]) == combine(combine(ab, cd).value, combine(ee, ee).value)
  {
    var ab, cd, ee := combine(a, b).value, combine(c, d).value, combine(e, e).value;
    var level := [a, b, c, d, e];
    PairsFormNextLevel(combine, level, [ab, cd], [ab, cd, ee]);
    ThreeLeaves(combine, ab, cd, ee);
  }

  /** Two leaves "aa", "aa" without hashing: the reversed encoding of the
      double hash of the two bytes 0xaa 0xaa. */
  lemma TwoEqualLeavesWithoutHashing(H: Sha256)
    ensures MerkleRootSpec(H, ["aa", "aa"], false).1 == Ok(Hexlify(Reverse(H(H([0xaa, 0xaa])))))
  {
    assert Unhexlify("aa") == Some([0xaa as byte]) by {
      assert "aa"[2..] == "";
      assert Unhexlify("") == Some([]);
      assert IsHexDigit("aa"[0]) && IsHexDigit("aa"[1]);
      assert DigitValue('a') * 16 + DigitValue('a') == 0xaa;
      assert Unhexlify("aa") == Some([(DigitValue('a') * 16 + DigitValue('a')) as byte] + []);
      assert [(DigitValue('a') * 16 + DigitValue('a')) as byte] + [] == [0xaa as byte];
    }
    assert [0xaa as byte] + [0xaa as byte] == [0xaa, 0xaa];
    var level := ["aa", "aa"];
    var c := HashIteration(H, "aa", "aa").value;
    assert c == Hexlify(H(H([0xaa, 0xaa])));
    assert level[2..] == [];
    assert NextLevel(Combiner(H), level) == Some([c] + []);
    assert ReduceLevels(Combiner(H), level) == Some(c);
    HexlifyUnhexlify(ShiftHash(c).value);
  }
}
