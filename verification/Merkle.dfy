/**
 * The commitment tree of src/lib/disclose.ts: root, audit path and path check, with SHA-256 as an
 * arbitrary function `hash` into 32-byte strings.  `None` stands for a thrown error.
 */
module Merkle {
  import opened ByteStrings
  import opened TextOrder

  type HashFunction = Bytes -> Digest

  /** A step as it arrives in a proof: untrusted text for the sibling and for its side. */
  datatype MerklePathStep = MerklePathStep(sibling: string, side: string)

  // ------------------------------------------------------------ specification

  function Leaf(hash: HashFunction, commitment: Bytes): Digest {
    hash([0] + commitment)
  }

  function ParentPreimage(left: Digest, right: Digest): Bytes {
    [1] + left + right
  }

  function Parent(hash: HashFunction, left: Digest, right: Digest): Digest {
    hash(ParentPreimage(left, right))
  }

  /** The two children of node i of the next level; the last node of an odd level is paired with itself. */
  function LeftChild(level: seq<Digest>, i: nat): Digest
    requires 2 * i < |level|
  {
    level[2 * i]
  }

  function RightChild(level: seq<Digest>, i: nat): Digest
    requires 2 * i < |level|
  {
    if 2 * i + 1 < |level| then level[2 * i + 1] else level[2 * i]
  }

  function NextLevel(hash: HashFunction, level: seq<Digest>): (next: seq<Digest>)
    ensures |next| == (|level| + 1) / 2
    ensures forall i :: 0 <= i < |next| ==> next[i] == Parent(hash, LeftChild(level, i), RightChild(level, i))
  {
    seq((|level| + 1) / 2, i requires 0 <= i < (|level| + 1) / 2 =>
      Parent(hash, LeftChild(level, i), RightChild(level, i)))
  }

  function Root(hash: HashFunction, level: seq<Digest>): Digest
    requires |level| > 0
    decreases |level|
  {
    if |level| == 1 then level[0] else Root(hash, NextLevel(hash, level))
  }

  function StepAt(level: seq<Digest>, index: nat): MerklePathStep
    requires index < |level|
  {
    if index % 2 == 1 then MerklePathStep(BytesToHex(level[index - 1]), "left")
    else MerklePathStep(BytesToHex(RightChild(level, index / 2)), "right")
  }

  function PathAt(hash: HashFunction, level: seq<Digest>, index: nat): seq<MerklePathStep>
    requires index < |level|
    decreases |level|
  {
    if |level| == 1 then []
    else [StepAt(level, index)] + PathAt(hash, NextLevel(hash, level), index / 2)
  }

  /** decode32: a hash that enters the fold must decode to exactly 32 bytes. */
  function Decode32(text: string): Option<Digest> {
    match HexToBytes(text)
    case Some(b) => if |b| == 32 then Some(b) else None
    case None => None
  }

  /** The preimage hashed by one step of the fold; malformed siblings and unknown sides fail closed. */
  function StepPreimage(running: Digest, step: MerklePathStep): Option<Bytes> {
    match Decode32(step.sibling)
    case None => None
    case Some(sibling) =>
      if step.side == "left" then Some(ParentPreimage(sibling, running))
      else if step.side == "right" then Some(ParentPreimage(running, sibling))
      else None
  }

  function Fold(hash: HashFunction, start: Digest, path: seq<MerklePathStep>): Option<Digest> {
    if |path| == 0 then Some(start)
    else
      match Fold(hash, start, path[..|path| - 1])
      case None => None
      case Some(running) =>
        match StepPreimage(running, path[|path| - 1])
        case None => None
        case Some(preimage) => Some(hash(preimage))
  }

  predicate Accepts(hash: HashFunction, commitmentHex: string, path: seq<MerklePathStep>, rootHex: string) {
    && Decode32(rootHex).Some?
    && Decode32(commitmentHex).Some?
    && Fold(hash, Leaf(hash, Decode32(commitmentHex).value), path) == Some(Decode32(rootHex).value)
  }

  function LowerAll(texts: seq<string>): (r: seq<string>)
    ensures |r| == |texts| && forall i :: 0 <= i < |r| ==> r[i] == Lower(texts[i])
  {
    seq(|texts|, i requires 0 <= i < |texts| => Lower(texts[i]))
  }

  /** The leaf order: lower-cased, deduplicated, sorted. */
  function Members(commitments: seq<string>): seq<string> {
    SortDistinct(LowerAll(commitments))
  }

  predicate AllDecode(texts: seq<string>) {
    forall i :: 0 <= i < |texts| ==> HexToBytes(texts[i]).Some?
  }

  function Leaves(hash: HashFunction, members: seq<string>): (level: seq<Digest>)
    requires AllDecode(members)
    ensures |level| == |members|
    ensures forall i :: 0 <= i < |level| ==> level[i] == Leaf(hash, HexToBytes(members[i]).value)
  {
    seq(|members|, i requires 0 <= i < |members| => Leaf(hash, HexToBytes(members[i]).value))
  }

  /** The set has a root: it is not empty and every member decodes. */
  predicate HasRoot(commitments: seq<string>) {
    |Members(commitments)| > 0 && AllDecode(Members(commitments))
  }

  function RootOf(hash: HashFunction, commitments: seq<string>): string
    requires HasRoot(commitments)
  {
    BytesToHex(Root(hash, Leaves(hash, Members(commitments))))
  }

  // ---------------------------------------------------------------- the loops

  method BuildNextLevel(hash: HashFunction, level: seq<Digest>) returns (next: seq<Digest>)
    ensures next == NextLevel(hash, level)
  {
    next := [];
    var i := 0;
    while i < |level|
      invariant 0 <= i <= |level| + 1 && i % 2 == 0
      invariant next == NextLevel(hash, level)[..i / 2]
    {
      var left := level[i];
      var right := if i + 1 < |level| then level[i + 1] else left;
      assert left == LeftChild(level, i / 2) && right == RightChild(level, i / 2);
      next := next + [hash([1] + left + right)];
      i := i + 2;
    }
  }

  method CanonicalLeaves(hash: HashFunction, members: seq<string>) returns (level: Option<seq<Digest>>)
    ensures level == if AllDecode(members) then Some(Leaves(hash, members)) else None
  {
    var leaves: seq<Digest> := [];
    for i := 0 to |members|
      invariant AllDecode(members[..i]) && leaves == Leaves(hash, members[..i])
    {
      match HexToBytes(members[i]) {
        case None =>
          return None;
        case Some(bytes) =>
          leaves := leaves + [Leaf(hash, bytes)];
      }
      assert members[..i + 1] == members[..i] + [members[i]];
    }
    assert members[..|members|] == members;
    level := Some(leaves);
  }

  method ComputeCommitmentRoot(hash: HashFunction, commitments: seq<string>) returns (root: Option<string>)
    ensures root == if HasRoot(commitments) then Some(RootOf(hash, commitments)) else None
  {
    var leaves := CanonicalLeaves(hash, Members(commitments));
    if leaves.None? || |leaves.value| == 0 {
      return None;
    }
    var level := leaves.value;
    while |level| > 1
      invariant |level| > 0
      invariant Root(hash, level) == Root(hash, leaves.value)
      decreases |level|
    {
      level := BuildNextLevel(hash, level);
    }
    root := Some(BytesToHex(level[0]));
  }

  method FindMember(members: seq<string>, target: string) returns (found: Option<nat>)
    ensures found.None? ==> target !in members
    ensures found.Some? ==> found.value < |members| && members[found.value] == target
  {
    for i := 0 to |members|
      invariant target !in members[..i]
    {
      if members[i] == target {
        return Some(i);
      }
    }
    found := None;
  }

  method ChooseStep(level: seq<Digest>, index: nat) returns (step: MerklePathStep)
    requires index < |level|
    ensures step == StepAt(level, index)
  {
    var isRightNode := index % 2 == 1;
    var siblingIndex := if isRightNode then index - 1 else index + 1;
    var sibling := if siblingIndex < |level| then level[siblingIndex] else level[index];
    step := MerklePathStep(BytesToHex(sibling), if isRightNode then "left" else "right");
  }

  method CollectPath(hash: HashFunction, leaves: seq<Digest>, start: nat) returns (path: seq<MerklePathStep>)
    requires start < |leaves|
    ensures path == PathAt(hash, leaves, start)
  {
    var level, index := leaves, start;
    path := [];
    while |level| > 1
      invariant 0 <= index < |level|
      invariant path + PathAt(hash, level, index) == PathAt(hash, leaves, start)
      decreases |level|
    {
      var step := ChooseStep(level, index);
      var next := BuildNextLevel(hash, level);
      PathUnfolds(hash, level, index, path);
      path, level, index := path + [step], next, index / 2;
    }
  }

  method BuildMerklePath(hash: HashFunction, commitments: seq<string>, target: string)
    returns (path: Option<seq<MerklePathStep>>)
    ensures path.Some? <==> Lower(target) in Members(commitments) && AllDecode(Members(commitments))
    ensures path.Some? ==>
      exists index :: 0 <= index < |Members(commitments)| && Members(commitments)[index] == Lower(target)
        && path.value == PathAt(hash, Leaves(hash, Members(commitments)), index)
  {
    var members := Members(commitments);
    var index := FindMember(members, Lower(target));
    if index.None? {
      return None;
    }
    var leaves := CanonicalLeaves(hash, members);
    if leaves.None? {
      return None;
    }
    var steps := CollectPath(hash, leaves.value, index.value);
    path := Some(steps);
  }

  method VerifyMerklePath(hash: HashFunction, commitmentHex: string, path: seq<MerklePathStep>, rootHex: string)
    returns (accepted: bool)
    ensures accepted == Accepts(hash, commitmentHex, path, rootHex)
  {
    var root := Decode32(rootHex);
    if root.None? {
      return false;
    }
    var commitment := Decode32(commitmentHex);
    if commitment.None? {
      return false;
    }
    var start := Leaf(hash, commitment.value);
    var running := start;
    for i := 0 to |path|
      invariant Fold(hash, start, path[..i]) == Some(running)
    {
      assert path[..i + 1][..i] == path[..i];
      var preimage := StepPreimage(running, path[i]);
      if preimage.None? {
        FoldStaysRejected(hash, start, path, i + 1);
        return false;
      }
      running := hash(preimage.value);
    }
    assert path[..|path|] == path;
    accepted := running == root.value;
  }

  lemma {:induction false} FoldStaysRejected(hash: HashFunction, start: Digest, path: seq<MerklePathStep>, n: nat)
    requires n <= |path| && Fold(hash, start, path[..n]).None?
    ensures Fold(hash, start, path).None?
    decreases |path|
  {
    if n < |path| {
      var init := path[..|path| - 1];
      assert init[..n] == path[..n];
      FoldStaysRejected(hash, start, init, n);
    } else {
      assert path[..n] == path;
    }
  }

  // ------------------------------------------------------------- completeness

  lemma {:induction false} FoldFromFront(hash: HashFunction, start: Digest, step: MerklePathStep,
                                         rest: seq<MerklePathStep>)
    requires StepPreimage(start, step).Some?
    ensures Fold(hash, start, [step] + rest) == Fold(hash, hash(StepPreimage(start, step).value), rest)
    decreases |rest|
  {
    var path := [step] + rest;
    if |rest| == 0 {
      assert path[..0] == [] && path[0] == step;
      assert Fold(hash, start, []) == Some(start);
    } else {
      FoldFromFront(hash, start, step, rest[..|rest| - 1]);
      assert path[..|path| - 1] == [step] + rest[..|rest| - 1];
    }
  }

  /** The step stored for a node rebuilds exactly the pair its parent was hashed from. */
  lemma StepRebuildsParent(level: seq<Digest>, index: nat)
    requires index < |level|
    ensures StepPreimage(level[index], StepAt(level, index)) ==
        Some(ParentPreimage(LeftChild(level, index / 2), RightChild(level, index / 2)))
  {
    var i := index / 2;
    if index % 2 == 1 {
      assert level[index - 1] == LeftChild(level, i) && level[index] == RightChild(level, i);
      HexRoundTrip(LeftChild(level, i));
    } else {
      assert level[index] == LeftChild(level, i);
      HexRoundTrip(RightChild(level, i));
    }
  }

  /** The audit path of any node folds to the root, odd levels included. */
  lemma {:induction false} PathFoldsToRoot(hash: HashFunction, level: seq<Digest>, index: nat)
    requires index < |level|
    ensures Fold(hash, level[index], PathAt(hash, level, index)) == Some(Root(hash, level))
    decreases |level|
  {
    if |level| > 1 {
      var step, next := StepAt(level, index), NextLevel(hash, level);
      PathFoldsToRoot(hash, next, index / 2);
      StepRebuildsParent(level, index);
      FoldFromFront(hash, level[index], step, PathAt(hash, next, index / 2));
    }
  }

  /**
   * Completeness: the path built for a member verifies against the root of the same set exactly when the
   * target itself decodes to 32 bytes.  (Membership is tested after lowering, so a target spelled "0X.." can
   * have a path, yet hexToBytes strips only a lower-case "0x" and verification rejects it.)
   */
  lemma BuiltPathVerifies(hash: HashFunction, commitments: seq<string>, target: string, index: nat)
    requires HasRoot(commitments)
    requires index < |Members(commitments)| && Members(commitments)[index] == Lower(target)
    ensures Accepts(hash, target, PathAt(hash, Leaves(hash, Members(commitments)), index), RootOf(hash, commitments))
        <==> Decode32(target).Some?
  {
    var level := Leaves(hash, Members(commitments));
    HexRoundTrip(Root(hash, level));
    if Decode32(target).Some? {
      DecodeIgnoresCase(target);
      assert level[index] == Leaf(hash, Decode32(target).value);
      PathFoldsToRoot(hash, level, index);
    }
  }

  /** A path over n > 1 leaves has length d with 2^(d-1) < n <= 2^d. */
  lemma {:induction false} PathLengthIsLogarithmic(hash: HashFunction, level: seq<Digest>, index: nat)
    requires index < |level|
    ensures |level| <= Pow2(|PathAt(hash, level, index)|)
    ensures |level| == 1 <==> |PathAt(hash, level, index)| == 0
    ensures |level| > 1 ==> Pow2(|PathAt(hash, level, index)| - 1) < |level|
    decreases |level|
  {
    if |level| > 1 {
      PathLengthIsLogarithmic(hash, NextLevel(hash, level), index / 2);
    }
  }

  // ---------------------------------------------------------------- soundness

  /** Every preimage hashed while verifying `path` from `commitment`. */
  function PathPreimages(hash: HashFunction, commitment: Bytes, path: seq<MerklePathStep>): set<Bytes> {
    if |path| == 0 then {[0] + commitment}
    else
      var init := path[..|path| - 1];
      PathPreimages(hash, commitment, init) +
      match Fold(hash, Leaf(hash, commitment), init)
      case None => {}
      case Some(running) =>
        match StepPreimage(running, path[|path| - 1])
        case None => {}
        case Some(preimage) => {preimage}
  }

  /** Every internal preimage hashed while computing the root over `level`. */
  function NodePreimages(hash: HashFunction, level: seq<Digest>): set<Bytes>
    requires |level| > 0
    decreases |level|
  {
    if |level| == 1 then {}
    else
      (set i | 0 <= i < (|level| + 1) / 2 :: ParentPreimage(LeftChild(level, i), RightChild(level, i))) +
      NodePreimages(hash, NextLevel(hash, level))
  }

  function LeafPreimages(members: seq<string>): set<Bytes>
    requires AllDecode(members)
  {
    set i | 0 <= i < |members| :: [0] + HexToBytes(members[i]).value
  }

  /** Every preimage hashed while computing the root of a commitment set. */
  function TreePreimages(hash: HashFunction, commitments: seq<string>): set<Bytes>
    requires HasRoot(commitments)
  {
    LeafPreimages(Members(commitments)) + NodePreimages(hash, Leaves(hash, Members(commitments)))
  }

  /**
   * Two different preimages with one hash, one from each computation.  (That some collision exists is
   * trivially true of any function into 32 bytes; exhibiting it among these inputs is not.)
   */
  ghost predicate Collision(hash: HashFunction, xs: set<Bytes>, ys: set<Bytes>) {
    exists x, y :: x in xs && y in ys && x != y && hash(x) == hash(y)
  }

  lemma LeafIsNotNode(commitment: Bytes, left: Digest, right: Digest)
    ensures [0] + commitment != ParentPreimage(left, right)
  {
    assert ([0] + commitment)[0] == 0;
    assert ParentPreimage(left, right)[0] == 1;
  }

  lemma ParentPreimageIsInjective(a: Digest, b: Digest, c: Digest, d: Digest)
    requires ParentPreimage(a, b) == ParentPreimage(c, d)
    ensures a == c && b == d
  {
    assert a == ParentPreimage(a, b)[1..33] && c == ParentPreimage(c, d)[1..33];
    assert b == ParentPreimage(a, b)[33..] && d == ParentPreimage(c, d)[33..];
  }

  lemma {:induction false} PathPreimagesGrow(hash: HashFunction, commitment: Bytes, path: seq<MerklePathStep>, n: nat)
    requires n <= |path|
    ensures PathPreimages(hash, commitment, path[..n]) <= PathPreimages(hash, commitment, path)
    decreases |path|
  {
    if n < |path| {
      var init := path[..|path| - 1];
      assert init[..n] == path[..n];
      PathPreimagesGrow(hash, commitment, init, n);
    } else {
      assert path[..n] == path;
    }
  }

  /** The last preimage a successful, non-empty fold hashed. */
  lemma LastPreimage(hash: HashFunction, commitment: Bytes, path: seq<MerklePathStep>)
    returns (running: Digest, x: Bytes)
    requires |path| > 0 && Fold(hash, Leaf(hash, commitment), path).Some?
    ensures Fold(hash, Leaf(hash, commitment), path[..|path| - 1]) == Some(running)
    ensures x in PathPreimages(hash, commitment, path)
    ensures hash(x) == Fold(hash, Leaf(hash, commitment), path).value
    ensures exists other: Digest :: x == ParentPreimage(other, running) || x == ParentPreimage(running, other)
  {
    running := Fold(hash, Leaf(hash, commitment), path[..|path| - 1]).value;
    var step := path[|path| - 1];
    x := StepPreimage(running, step).value;
    var other := Decode32(step.sibling).value;
    assert x == ParentPreimage(other, running) || x == ParentPreimage(running, other);
  }

  /**
   * An accepting fold passes through every level of the tree on its way up: some prefix of it ends on a node
   * of `level`, or a node preimage of the tree collides with a preimage of the path.
   */
  lemma {:induction false} FoldMeetsLevel(hash: HashFunction, level: seq<Digest>, commitment: Bytes,
                                          path: seq<MerklePathStep>)
    returns (n: nat)
    requires |level| > 0
    requires Fold(hash, Leaf(hash, commitment), path) == Some(Root(hash, level))
    ensures Collision(hash, PathPreimages(hash, commitment, path), NodePreimages(hash, level))
      || (n <= |path| && Fold(hash, Leaf(hash, commitment), path[..n]).Some?
          && Fold(hash, Leaf(hash, commitment), path[..n]).value in level)
    decreases |level|
  {
    if |level| == 1 {
      assert path[..|path|] == path;
      return |path|;
    }
    var next := NextLevel(hash, level);
    n := FoldMeetsLevel(hash, next, commitment, path);
    if Collision(hash, PathPreimages(hash, commitment, path), NodePreimages(hash, next)) {
      return;
    }
    var i :| 0 <= i < |next| && next[i] == Fold(hash, Leaf(hash, commitment), path[..n]).value;
    var pair := ParentPreimage(LeftChild(level, i), RightChild(level, i));
    assert pair in NodePreimages(hash, level);
    PathPreimagesGrow(hash, commitment, path, n);
    if n == 0 {
      LeafIsNotNode(commitment, LeftChild(level, i), RightChild(level, i));
      PathPreimagesGrow(hash, commitment, path, 0);
      assert path[..0] == [] && [0] + commitment in PathPreimages(hash, commitment, path[..0]);
    } else {
      n := StepBelow(hash, level, commitment, path, n, i);
    }
  }

  /** Below a node the fold reached, the last step came from one of its children, or it collides with the node. */
  lemma StepBelow(hash: HashFunction, level: seq<Digest>, commitment: Bytes, path: seq<MerklePathStep>, n: nat, i: nat)
    returns (m: nat)
    requires 0 < n <= |path| && 2 * i < |level|
    requires Fold(hash, Leaf(hash, commitment), path[..n])
             == Some(Parent(hash, LeftChild(level, i), RightChild(level, i)))
    requires |level| > 1 && ParentPreimage(LeftChild(level, i), RightChild(level, i)) in NodePreimages(hash, level)
    requires PathPreimages(hash, commitment, path[..n]) <= PathPreimages(hash, commitment, path)
    ensures Collision(hash, PathPreimages(hash, commitment, path), NodePreimages(hash, level))
      || (m <= |path| && Fold(hash, Leaf(hash, commitment), path[..m]).Some?
          && Fold(hash, Leaf(hash, commitment), path[..m]).value in level)
  {
    var pair := ParentPreimage(LeftChild(level, i), RightChild(level, i));
    var running, x := LastPreimage(hash, commitment, path[..n]);
    assert path[..n][..n - 1] == path[..n - 1];
    m := n - 1;
    if x == pair {
      var other: Digest :| x == ParentPreimage(other, running) || x == ParentPreimage(running, other);
      PairHoldsBoth(level, i, other, running);
    } else {
      assert x in PathPreimages(hash, commitment, path) && hash(x) == hash(pair);
    }
  }

  lemma PairHoldsBoth(level: seq<Digest>, i: nat, other: Digest, running: Digest)
    requires 2 * i < |level|
    requires var pair := ParentPreimage(LeftChild(level, i), RightChild(level, i));
      pair == ParentPreimage(other, running) || pair == ParentPreimage(running, other)
    ensures running in level
  {
    if ParentPreimage(LeftChild(level, i), RightChild(level, i)) == ParentPreimage(other, running) {
      ParentPreimageIsInjective(LeftChild(level, i), RightChild(level, i), other, running);
    } else {
      ParentPreimageIsInjective(LeftChild(level, i), RightChild(level, i), running, other);
    }
  }

  /** The commitment is one of the set's members, spelling aside. */
  predicate IsMember(commitment: Bytes, commitments: seq<string>)
  {
    exists i :: 0 <= i < |Members(commitments)| && HexToBytes(Members(commitments)[i]) == Some(commitment)
  }

  /**
   * Soundness: a path of any length accepted against the root of a set proves membership, or two different
   * preimages hashed by the check and by the root computation have the same hash.
   */
  lemma AcceptedPathProvesMembership(hash: HashFunction, commitments: seq<string>, commitmentHex: string,
                                     path: seq<MerklePathStep>)
    requires HasRoot(commitments)
    requires Accepts(hash, commitmentHex, path, RootOf(hash, commitments))
    ensures IsMember(Decode32(commitmentHex).value, commitments)
      || Collision(hash, PathPreimages(hash, Decode32(commitmentHex).value, path), TreePreimages(hash, commitments))
  {
    var c := Decode32(commitmentHex).value;
    var members := Members(commitments);
    var level := Leaves(hash, members);
    HexRoundTrip(Root(hash, level));
    var n := FoldMeetsLevel(hash, level, c, path);
    if Collision(hash, PathPreimages(hash, c, path), NodePreimages(hash, level)) {
      return;
    }
    var i :| 0 <= i < |level| && level[i] == Fold(hash, Leaf(hash, c), path[..n]).value;
    var leaf := HexToBytes(members[i]).value;
    assert [0] + leaf in LeafPreimages(members);
    PathPreimagesGrow(hash, c, path, n);
    if n == 0 {
      assert path[..0] == [] && [0] + c in PathPreimages(hash, c, path[..0]);
      if [0] + c == [0] + leaf {
        assert c == ([0] + c)[1..] && leaf == ([0] + leaf)[1..];
      }
    } else {
      var running, x := LastPreimage(hash, c, path[..n]);
      var other: Digest :| x == ParentPreimage(other, running) || x == ParentPreimage(running, other);
      LeafIsNotNode(leaf, other, running);
      LeafIsNotNode(leaf, running, other);
    }
  }

  // ------------------------------------------------- the root names the set

  /** Input order, letter case and repeats do not matter. */
  lemma RootDependsOnlyOnTheSet(hash: HashFunction, xs: seq<string>, ys: seq<string>)
    requires forall t :: t in LowerAll(xs) <==> t in LowerAll(ys)
    ensures HasRoot(xs) <==> HasRoot(ys)
    ensures HasRoot(xs) ==> RootOf(hash, xs) == RootOf(hash, ys)
  {
    SortDistinctIgnoresOrderAndRepeats(LowerAll(xs), LowerAll(ys));
  }

  /** One step up adds one preimage, and it is a node preimage of the tree. */
  lemma HonestStepPreimage(hash: HashFunction, level: seq<Digest>, index: nat, commitment: Bytes,
                           prefix: seq<MerklePathStep>)
    requires index < |level| && |level| > 1
    requires Fold(hash, Leaf(hash, commitment), prefix) == Some(level[index])
    ensures var longer := prefix + [StepAt(level, index)];
      && Fold(hash, Leaf(hash, commitment), longer) == Some(NextLevel(hash, level)[index / 2])
      && PathPreimages(hash, commitment, longer) <= PathPreimages(hash, commitment, prefix) + NodePreimages(hash, level)
  {
    var longer := prefix + [StepAt(level, index)];
    assert longer[..|longer| - 1] == prefix;
    StepRebuildsParent(level, index);
    assert ParentPreimage(LeftChild(level, index / 2), RightChild(level, index / 2)) in NodePreimages(hash, level);
  }

  lemma NodePreimagesGrow(hash: HashFunction, level: seq<Digest>)
    requires |level| > 1
    ensures NodePreimages(hash, NextLevel(hash, level)) <= NodePreimages(hash, level)
  {
  }

  lemma PathUnfolds(hash: HashFunction, level: seq<Digest>, index: nat, prefix: seq<MerklePathStep>)
    requires index < |level| && |level| > 1
    ensures prefix + PathAt(hash, level, index) ==
        (prefix + [StepAt(level, index)]) + PathAt(hash, NextLevel(hash, level), index / 2)
  {
  }

  lemma {:induction false} HonestPathPreimages(hash: HashFunction, level: seq<Digest>, index: nat,
                                               commitment: Bytes, prefix: seq<MerklePathStep>)
    requires index < |level|
    requires Fold(hash, Leaf(hash, commitment), prefix) == Some(level[index])
    ensures PathPreimages(hash, commitment, prefix + PathAt(hash, level, index))
         <= PathPreimages(hash, commitment, prefix) + NodePreimages(hash, level)
    decreases |level|
  {
    if |level| == 1 {
      assert prefix + [] == prefix;
    } else {
      var next := NextLevel(hash, level);
      var longer := prefix + [StepAt(level, index)];
      HonestStepPreimage(hash, level, index, commitment, prefix);
      HonestPathPreimages(hash, next, index / 2, commitment, longer);
      PathUnfolds(hash, level, index, prefix);
      NodePreimagesGrow(hash, level);
    }
  }

  /** All members are plain 64-digit hex. */
  predicate AllHex64(commitments: seq<string>) {
    forall i :: 0 <= i < |commitments| ==> |commitments[i]| == 64 && IsHex(commitments[i])
  }

  lemma Hex64Lower(c: string)
    requires |c| == 64 && IsHex(c)
    ensures |Lower(c)| == 64 && IsHex(Lower(c)) && Decode32(Lower(c)).Some?
    ensures Lower(c) == BytesToHex(Decode32(Lower(c)).value)
  {
    DecodeDeterminesText(c);
    DecodeIgnoresCase(c);
    LowerKeepsPairs(c);
  }

  lemma Hex64Members(commitments: seq<string>)
    requires AllHex64(commitments)
    ensures AllDecode(Members(commitments))
    ensures forall m :: m in Members(commitments) ==>
      |m| == 64 && IsHex(m) && Decode32(m).Some? && m == BytesToHex(Decode32(m).value)
  {
    forall m | m in Members(commitments)
      ensures |m| == 64 && IsHex(m) && Decode32(m).Some? && m == BytesToHex(Decode32(m).value)
    {
      var i :| 0 <= i < |commitments| && LowerAll(commitments)[i] == m;
      Hex64Lower(commitments[i]);
    }
  }

  lemma LowerIsIdempotentOnMembers(xs: seq<string>, index: nat)
    requires index < |Members(xs)|
    ensures Lower(Members(xs)[index]) == Members(xs)[index]
  {
    assert Members(xs)[index] in LowerAll(xs);
    var i :| 0 <= i < |xs| && LowerAll(xs)[i] == Members(xs)[index];
    LowerIsIdempotent(xs[i]);
  }

  /** The whole path of a member adds only preimages of its tree. */
  lemma MemberPathPreimages(hash: HashFunction, xs: seq<string>, index: nat, c: Bytes)
    requires HasRoot(xs) && index < |Members(xs)| && Decode32(Members(xs)[index]) == Some(c)
    ensures PathPreimages(hash, c, PathAt(hash, Leaves(hash, Members(xs)), index)) <= TreePreimages(hash, xs)
  {
    var level := Leaves(hash, Members(xs));
    HonestPathPreimages(hash, level, index, c, []);
    assert [] + PathAt(hash, level, index) == PathAt(hash, level, index);
    assert [0] + c in LeafPreimages(Members(xs));
  }

  /** One direction of binding: equal roots put every member of the one set into the other, or collide. */
  lemma MemberOfEqualRoot(hash: HashFunction, xs: seq<string>, ys: seq<string>, index: nat)
    requires AllHex64(xs) && AllHex64(ys) && HasRoot(xs) && HasRoot(ys)
    requires RootOf(hash, xs) == RootOf(hash, ys)
    requires index < |Members(xs)|
    ensures Members(xs)[index] in Members(ys) || Collision(hash, TreePreimages(hash, xs), TreePreimages(hash, ys))
  {
    Hex64Members(xs);
    Hex64Members(ys);
    var m := Members(xs)[index];
    LowerIsIdempotentOnMembers(xs, index);
    var path := PathAt(hash, Leaves(hash, Members(xs)), index);
    BuiltPathVerifies(hash, xs, m, index);
    AcceptedPathProvesMembership(hash, ys, m, path);
    MemberPathPreimages(hash, xs, index, Decode32(m).value);
  }

  /** Binding: two sets of 64-digit commitments with one root are the same set, or a collision is exhibited. */
  lemma EqualRootsMeanEqualSets(hash: HashFunction, xs: seq<string>, ys: seq<string>)
    requires AllHex64(xs) && AllHex64(ys) && HasRoot(xs) && HasRoot(ys)
    requires RootOf(hash, xs) == RootOf(hash, ys)
    ensures (forall t :: t in LowerAll(xs) <==> t in LowerAll(ys))
      || Collision(hash, TreePreimages(hash, xs), TreePreimages(hash, ys))
  {
    if !Collision(hash, TreePreimages(hash, xs), TreePreimages(hash, ys)) {
      CollisionIsSymmetric(hash, TreePreimages(hash, ys), TreePreimages(hash, xs));
      forall t | t in Members(xs) ensures t in Members(ys) {
        var i :| 0 <= i < |Members(xs)| && Members(xs)[i] == t;
        MemberOfEqualRoot(hash, xs, ys, i);
      }
      forall t | t in Members(ys) ensures t in Members(xs) {
        var i :| 0 <= i < |Members(ys)| && Members(ys)[i] == t;
        MemberOfEqualRoot(hash, ys, xs, i);
      }
    }
  }

  lemma CollisionIsSymmetric(hash: HashFunction, xs: set<Bytes>, ys: set<Bytes>)
    ensures Collision(hash, xs, ys) ==> Collision(hash, ys, xs)
  {
    if Collision(hash, xs, ys) {
      var x, y :| x in xs && y in ys && x != y && hash(x) == hash(y);
      assert hash(y) == hash(x);
    }
  }

  // ------------------------------------------- the tree and its paths, said without the recursion

  /**
   * A whole tree, bottom up: each node hashes a 1 byte and two neighbours of the level below, the last node of an odd
   * level standing in for its missing neighbour; the top level is one node.
   */
  ghost predicate IsTree(hash: HashFunction, levels: seq<seq<Digest>>) {
    && |levels| > 0 && |levels[|levels| - 1]| == 1
    && forall j :: 0 <= j < |levels| - 1 ==> |levels[j]| > 1 && IsLevelAbove(hash, levels[j], levels[j + 1])
  }

  ghost predicate IsLevelAbove(hash: HashFunction, level: seq<Digest>, above: seq<Digest>) {
    && |above| == (|level| + 1) / 2
    && forall i :: 0 <= i < |above| ==>
        above[i] == hash([1] + level[2 * i] + level[if 2 * i + 2 > |level| then |level| - 1 else 2 * i + 1])
  }

  lemma NextLevelIsAbove(hash: HashFunction, level: seq<Digest>)
    ensures IsLevelAbove(hash, level, NextLevel(hash, level))
  {
  }

  lemma LevelAboveIsNext(hash: HashFunction, level: seq<Digest>, above: seq<Digest>)
    requires IsLevelAbove(hash, level, above)
    ensures above == NextLevel(hash, level)
  {
    NextLevelIsAbove(hash, level);
  }

  /** Any tree over a level has its root on top. */
  lemma {:induction false} TopIsTheRoot(hash: HashFunction, levels: seq<seq<Digest>>)
    requires IsTree(hash, levels)
    ensures |levels[0]| > 0 && Root(hash, levels[0]) == levels[|levels| - 1][0]
    decreases |levels|
  {
    if |levels| > 1 {
      LevelAboveIsNext(hash, levels[0], levels[1]);
      assert IsTree(hash, levels[1..]);
      TopIsTheRoot(hash, levels[1..]);
    }
  }

  /** And every level that is not empty has one. */
  lemma {:induction false} EveryLevelHasATree(hash: HashFunction, level: seq<Digest>) returns (levels: seq<seq<Digest>>)
    requires |level| > 0
    ensures IsTree(hash, levels) && levels[0] == level
    decreases |level|
  {
    if |level| == 1 {
      levels := [level];
    } else {
      NextLevelIsAbove(hash, level);
      var rest := EveryLevelHasATree(hash, NextLevel(hash, level));
      levels := [level] + rest;
      assert levels[1..] == rest;
    }
  }

  /** The root of a set is the top of the tree over the hashes of its lower-cased members, sorted, each once. */
  lemma RootIsTheTreesTop(hash: HashFunction, commitments: seq<string>)
    returns (members: seq<string>, levels: seq<seq<Digest>>)
    ensures HasRoot(commitments) <==>
      |commitments| > 0 && forall i :: 0 <= i < |commitments| ==> HexToBytes(Lower(commitments[i])).Some?
    ensures StrictlySorted(members)
    ensures forall t :: t in members <==> exists i :: 0 <= i < |commitments| && Lower(commitments[i]) == t
    ensures HasRoot(commitments) ==>
      && IsTree(hash, levels) && |levels[0]| == |members|
      && RootOf(hash, commitments) == BytesToHex(levels[|levels| - 1][0])
      && (forall i :: 0 <= i < |members| ==>
            HexToBytes(members[i]).Some? && levels[0][i] == hash([0] + HexToBytes(members[i]).value))
  {
    members, levels := Members(commitments), [];
    MembersAreLowered(commitments);
    if HasRoot(commitments) {
      levels := EveryLevelHasATree(hash, Leaves(hash, members));
      TopIsTheRoot(hash, levels);
    }
  }

  lemma MembersAreLowered(commitments: seq<string>)
    ensures forall t :: t in Members(commitments) <==> exists i :: 0 <= i < |commitments| && Lower(commitments[i]) == t
    ensures HasRoot(commitments) <==>
      |commitments| > 0 && forall i :: 0 <= i < |commitments| ==> HexToBytes(Lower(commitments[i])).Some?
  {
    forall t ensures t in Members(commitments) <==> exists i :: 0 <= i < |commitments| && Lower(commitments[i]) == t {
      assert t in Members(commitments) <==> t in LowerAll(commitments);
      if i :| 0 <= i < |commitments| && Lower(commitments[i]) == t {
        assert LowerAll(commitments)[i] == t;
      }
    }
    if |commitments| > 0 {
      assert LowerAll(commitments)[0] in Members(commitments);
    }
    if AllDecode(Members(commitments)) {
      forall i | 0 <= i < |commitments| ensures HexToBytes(Lower(commitments[i])).Some? {
        assert LowerAll(commitments)[i] in Members(commitments);
      }
    }
    forall j | 0 <= j < |Members(commitments)| ensures Members(commitments)[j] in LowerAll(commitments) {
      assert Members(commitments)[j] in Members(commitments);
    }
  }

  /** The neighbour a node is hashed with: the one before an odd position, the one after an even one, or itself. */
  ghost predicate IsStepAt(level: seq<Digest>, at: nat, step: MerklePathStep) {
    && at < |level|
    && (if at % 2 == 1 then step.side == "left" && step.sibling == BytesToHex(level[at - 1])
        else step.side == "right" && step.sibling == BytesToHex(level[if at + 1 == |level| then at else at + 1]))
  }

  /** One step a level, from each position to half of it. */
  ghost predicate Climbs(levels: seq<seq<Digest>>, index: nat, path: seq<MerklePathStep>, positions: seq<nat>) {
    && |path| == |positions| && |levels| == |path| + 1
    && (|positions| > 0 ==> positions[0] == index)
    && (forall j :: 0 < j < |positions| ==> positions[j] == positions[j - 1] / 2)
    && (forall j :: 0 <= j < |positions| ==> IsStepAt(levels[j], positions[j], path[j]))
  }

  lemma StepAtIsAt(level: seq<Digest>, index: nat)
    requires index < |level|
    ensures IsStepAt(level, index, StepAt(level, index))
  {
  }

  lemma ClimbFromBelow(level: seq<Digest>, levels: seq<seq<Digest>>, index: nat, step: MerklePathStep,
                       path: seq<MerklePathStep>, positions: seq<nat>)
    requires IsStepAt(level, index, step) && Climbs(levels, index / 2, path, positions)
    ensures Climbs([level] + levels, index, [step] + path, [index] + positions)
  {
    var higher := [index] + positions;
    forall j | 0 < j < |higher| ensures higher[j] == higher[j - 1] / 2 {
      assert higher[j] == positions[j - 1];
      if j > 1 { assert higher[j - 1] == positions[j - 2]; }
    }
    forall j | 0 <= j < |higher| ensures IsStepAt(([level] + levels)[j], higher[j], ([step] + path)[j]) {
      if j > 0 { assert IsStepAt(levels[j - 1], positions[j - 1], path[j - 1]); }
    }
  }

  /** The path of a leaf climbs the tree. */
  lemma {:induction false} PathClimbsTheTree(hash: HashFunction, levels: seq<seq<Digest>>, index: nat)
    returns (positions: seq<nat>)
    requires IsTree(hash, levels) && index < |levels[0]|
    ensures Climbs(levels, index, PathAt(hash, levels[0], index), positions)
    decreases |levels|
  {
    positions := [];
    if |levels| > 1 {
      LevelAboveIsNext(hash, levels[0], levels[1]);
      TreeWithoutLeaves(hash, levels);
      var rest := PathClimbsTheTree(hash, levels[1..], index / 2);
      StepAtIsAt(levels[0], index);
      ClimbFromBelow(levels[0], levels[1..], index, StepAt(levels[0], index), PathAt(hash, levels[1], index / 2), rest);
      assert [levels[0]] + levels[1..] == levels;
      positions := [index] + rest;
    }
  }

  lemma TreeWithoutLeaves(hash: HashFunction, levels: seq<seq<Digest>>)
    requires IsTree(hash, levels) && |levels| > 1
    ensures IsTree(hash, levels[1..])
  {
  }

  // ------------------------------------------------------------ the check as a recomputation

  /** A run of the check: from the leaf hash on, each step hashes a 1 byte, and the sibling on its side of the value. */
  ghost predicate IsRun(hash: HashFunction, start: Digest, path: seq<MerklePathStep>, run: seq<Digest>) {
    && |run| == |path| + 1 && run[0] == start
    && forall j :: 0 <= j < |path| ==> IsRunStep(hash, run[j], path[j], run[j + 1])
  }

  ghost predicate IsRunStep(hash: HashFunction, running: Digest, step: MerklePathStep, next: Digest) {
    var sibling := HexToBytes(step.sibling);
    && sibling.Some? && |sibling.value| == 32
    && ((step.side == "left" && next == hash([1] + sibling.value + running))
        || (step.side == "right" && next == hash([1] + running + sibling.value)))
  }

  lemma OneStepRuns(hash: HashFunction, running: Digest, step: MerklePathStep, next: Digest)
    ensures IsRunStep(hash, running, step, next) <==>
      StepPreimage(running, step).Some? && next == hash(StepPreimage(running, step).value)
  {
    assert "left"[0] != "right"[0];
  }

  lemma {:induction false} FoldIsARun(hash: HashFunction, start: Digest, path: seq<MerklePathStep>)
    returns (run: seq<Digest>)
    ensures Fold(hash, start, path).Some? ==>
      IsRun(hash, start, path, run) && run[|path|] == Fold(hash, start, path).value
    decreases |path|
  {
    run := [start];
    if |path| > 0 && Fold(hash, start, path).Some? {
      var init := FoldIsARun(hash, start, path[..|path| - 1]);
      run := init + [Fold(hash, start, path).value];
      OneStepRuns(hash, init[|path| - 1], path[|path| - 1], run[|path|]);
      RunExtends(hash, start, path, init, run[|path|]);
    }
  }

  lemma RunExtends(hash: HashFunction, start: Digest, path: seq<MerklePathStep>, run: seq<Digest>, next: Digest)
    requires |path| > 0 && IsRun(hash, start, path[..|path| - 1], run)
    requires IsRunStep(hash, run[|path| - 1], path[|path| - 1], next)
    ensures IsRun(hash, start, path, run + [next])
  {
    var longer := run + [next];
    forall j | 0 <= j < |path| ensures IsRunStep(hash, longer[j], path[j], longer[j + 1]) {
      if j < |path| - 1 {
        assert IsRunStep(hash, run[j], path[..|path| - 1][j], run[j + 1]);
      }
    }
  }

  lemma {:induction false} RunIsTheFold(hash: HashFunction, start: Digest, path: seq<MerklePathStep>, run: seq<Digest>)
    requires IsRun(hash, start, path, run)
    ensures Fold(hash, start, path) == Some(run[|path|])
    decreases |path|
  {
    if |path| > 0 {
      RunIsTheFold(hash, start, path[..|path| - 1], run[..|path|]);
      OneStepRuns(hash, run[|path| - 1], path[|path| - 1], run[|path|]);
    }
  }

  /** A path is accepted exactly when its run from the commitment's leaf hash ends in the root, all of 32 bytes. */
  lemma AcceptedMeansRecomputed(hash: HashFunction, commitmentHex: string, path: seq<MerklePathStep>, rootHex: string)
    ensures
      var commitment, root := HexToBytes(commitmentHex), HexToBytes(rootHex);
      Accepts(hash, commitmentHex, path, rootHex) <==>
        && commitment.Some? && |commitment.value| == 32 && root.Some? && |root.value| == 32
        && exists run :: IsRun(hash, hash([0] + commitment.value), path, run) && run[|path|] == root.value
  {
    var commitment, root := HexToBytes(commitmentHex), HexToBytes(rootHex);
    if commitment.Some? && |commitment.value| == 32 && root.Some? && |root.value| == 32 {
      var start := hash([0] + commitment.value);
      var run := FoldIsARun(hash, start, path);
      if other :| IsRun(hash, start, path, other) && other[|path|] == root.value {
        RunIsTheFold(hash, start, path, other);
      }
    }
  }
}
