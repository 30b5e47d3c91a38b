/** Index arithmetic of the array-based tree (Appendix C of RFC 9420; `tree_math.cpp`).

    Node indices are natural numbers; with at most 2^30 leaves every value computed here fits in
    32 bits.  The bit manipulations of the source are kept.  Their meaning is stated with the
    interval `[Lo(x), Hi(x))` of leaf numbers below node `x`. */
module TreeMath {
  import opened Wrappers
  import opened Bits

  type NodeIndex = nat
  type LeafIndex = nat

  // --------------------------------------------------------------------------
  // The interval of leaves below a node
  // --------------------------------------------------------------------------

  /** Number of trailing one bits. */
  function Level(x: NodeIndex): nat {
    if x % 2 == 0 then 0 else 1 + Level(x / 2)
  }

  ghost function Width(x: NodeIndex): (w: nat)
    ensures 1 <= w <= x + 1
    ensures w == 1 <==> x % 2 == 0
  {
    if x % 2 == 0 then 1 else 2 * Width(x / 2)
  }

  /** The first leaf below `x`. */
  ghost function Lo(x: NodeIndex): nat { if x % 2 == 0 then x / 2 else 2 * Lo(x / 2) }

  /** One past the last leaf below `x`. */
  ghost function Hi(x: NodeIndex): (h: nat)
    ensures h == Lo(x) + Width(x)
    ensures x + 1 == Lo(x) + h
  {
    if x % 2 == 0 then x / 2 + 1 else 2 * Hi(x / 2)
  }

  ghost predicate Covers(x: NodeIndex, leaf: LeafIndex) { Lo(x) <= leaf < Hi(x) }

  function LeafNodeIndex(leaf: LeafIndex): (x: NodeIndex)
    ensures x % 2 == 0 && Lo(x) == leaf && Hi(x) == leaf + 1
  {
    2 * leaf
  }

  /** The constructor of a leaf index from a node index throws on odd values. */
  function LeafOfNode(x: NodeIndex): (r: Result<LeafIndex>)
    ensures r.Ok? <==> Hi(x) == Lo(x) + 1
    ensures r.Ok? ==> r.value == Lo(x) && LeafNodeIndex(r.value) == x
  {
    if x % 2 == 1 then Err(InvalidParameter) else Ok(x / 2)
  }

  lemma {:induction false} WidthIsPow2(x: NodeIndex)
    ensures Width(x) == Pow2(Level(x))
  {
    if x % 2 == 1 { WidthIsPow2(x / 2); }
  }

  lemma LevelWidth(x: NodeIndex, y: NodeIndex)
    ensures Level(x) <= Level(y) <==> Width(x) <= Width(y)
    ensures Level(x) == Level(y) <==> Width(x) == Width(y)
  {
    WidthIsPow2(x);
    WidthIsPow2(y);
    Pow2Mono(Level(x), Level(y));
    Pow2Mono(Level(y), Level(x));
  }

  ghost predicate Within(x: NodeIndex, y: NodeIndex) { Lo(y) <= Lo(x) && Hi(x) <= Hi(y) }

  ghost predicate Apart(x: NodeIndex, y: NodeIndex) { Hi(x) <= Lo(y) || Hi(y) <= Lo(x) }

  /** Two subtrees are nested or disjoint, and the narrower one is the inner one. */
  lemma {:induction false} Laminar(x: NodeIndex, y: NodeIndex)
    ensures Within(x, y) || Within(y, x) || Apart(x, y)
    ensures Within(x, y) ==> Level(x) <= Level(y)
    ensures Within(x, y) && x != y ==> Level(x) < Level(y) && 2 * Width(x) <= Width(y)
  {
    if x % 2 == 1 && y % 2 == 1 {
      Laminar(x / 2, y / 2);
    }
  }

  // --------------------------------------------------------------------------
  // The C++ functions
  // --------------------------------------------------------------------------

  /** `NodeIndex::level`: the loop counts how often the low bit can be shifted out. */
  method ComputeLevel(val: NodeIndex) returns (k: nat)
    ensures k == Level(val)
    ensures Pow2(k) == Width(val)
  {
    WidthIsPow2(val);
    LowBit(val);
    if And(val, 1) == 0 {
      return 0;
    }
    k := 0;
    ghost var rest := val;
    while And(Shr(val, k), 1) == 1
      invariant Shr(val, k) == rest
      invariant k + Level(rest) == Level(val)
      decreases rest
    {
      LowBit(rest);
      ShrNext(val, k);
      rest := rest / 2;
      k := k + 1;
    }
    LowBit(rest);
  }

  lemma LowBit(x: nat)
    ensures And(x, 1) == x % 2
  {
    if x > 0 { assert And(x / 2, 0) == 0; }
  }

  lemma {:induction false} ShrNext(x: nat, k: nat)
    ensures Shr(x, k + 1) == Shr(x, k) / 2
    decreases k
  {
    if k > 0 {
      ShrNext(x / 2, k - 1);
    }
  }

  /** `log2` of the source: position of the highest one bit, 0 for 0. */
  method ComputeLog2(x: nat) returns (r: nat)
    ensures x == 0 ==> r == 0
    ensures x > 0 ==> Pow2(r) <= x < Pow2(r + 1)
  {
    if x == 0 { return 0; }
    var k := 0;
    while Shr(x, k) > 0
      invariant Shr(x, k) == x / Pow2(k)
      invariant k > 0 ==> Shr(x, k - 1) > 0
      decreases Shr(x, k)
    {
      ShrNext(x, k);
      ShrIsQuotient(x, k + 1);
      k := k + 1;
    }
    r := k - 1;
    ShrIsQuotient(x, r);
    QuotientBounds(x, Pow2(r));
    QuotientBounds(x, Pow2(k));
  }

  lemma QuotientBounds(x: nat, p: nat)
    requires p > 0
    ensures x / p == 0 <==> x < p
  {
    if x < p { DivUnique(x, p, 0, x); }
  }

  function IsLeaf(x: NodeIndex): (r: bool)
    ensures r <==> Level(x) == 0
    ensures r <==> Hi(x) == Lo(x) + 1
  {
    x % 2 == 0
  }

  /** Flipping one bit below the zero bit that ends the trailing ones moves to the left child. */
  function Left(x: NodeIndex): (r: NodeIndex)
    ensures IsLeaf(x) ==> r == x
    ensures !IsLeaf(x) ==> Level(r) == Level(x) - 1 && 2 * Width(r) == Width(x)
    ensures !IsLeaf(x) ==> Lo(r) == Lo(x) && 2 * Hi(r) == x + 1 && r < x
  {
    if IsLeaf(x) then x else LeftBits(x); Xor(x, Shl(1, Level(x) - 1))
  }

  /** Flipping that bit and the next one moves to the right child. */
  function Right(x: NodeIndex): (r: NodeIndex)
    ensures IsLeaf(x) ==> r == x
    ensures !IsLeaf(x) ==> Level(r) == Level(x) - 1 && 2 * Width(r) == Width(x)
    ensures !IsLeaf(x) ==> Hi(r) == Hi(x) && 2 * Lo(r) == x + 1 && r > x
  {
    if IsLeaf(x) then x else RightBits(x); Xor(x, Shl(3, Level(x) - 1))
  }

  function Parent(x: NodeIndex): (r: NodeIndex)
    ensures Level(r) == Level(x) + 1 && Width(r) == 2 * Width(x)
    ensures Within(x, r) && x != r && !IsLeaf(r)
    ensures x == Left(r) || x == Right(r)
  {
    ParentBits(x);
    AndNot(Or(x, Shl(1, Level(x))), Shl(1, Level(x) + 1))
  }

  // The same three maps by recursion on the index, which is how their facts are proved.

  ghost function LeftRec(x: NodeIndex): NodeIndex {
    if x % 2 == 0 then x else if (x / 2) % 2 == 0 then x - 1 else 2 * LeftRec(x / 2) + 1
  }

  ghost function RightRec(x: NodeIndex): NodeIndex {
    if x % 2 == 0 then x else if (x / 2) % 2 == 0 then x + 1 else 2 * RightRec(x / 2) + 1
  }

  ghost function ParentRec(x: NodeIndex): NodeIndex {
    if x % 2 == 1 then 2 * ParentRec(x / 2) + 1 else if (x / 2) % 2 == 0 then x + 1 else x - 1
  }

  lemma XorStep(x: nat, y: nat)
    ensures Xor(x, y) == (if x % 2 != y % 2 then 1 else 0) + 2 * Xor(x / 2, y / 2)
  {
    if x == 0 && y == 0 { assert Xor(0, 0) == 0; }
  }

  lemma {:induction false} LeftWord(x: NodeIndex)
    requires Level(x) > 0
    ensures Xor(x, Pow2(Level(x) - 1)) == LeftRec(x)
  {
    var p := Pow2(Level(x) - 1);
    XorStep(x, p);
    if Level(x) == 1 {
      XorZero(x / 2);
    } else {
      LeftWord(x / 2);
      hide Xor;
      assert p == 2 * Pow2(Level(x / 2) - 1);
    }
  }

  lemma {:induction false} RightWord(x: NodeIndex)
    requires Level(x) > 0
    ensures Xor(x, 3 * Pow2(Level(x) - 1)) == RightRec(x)
  {
    var p := Pow2(Level(x) - 1);
    XorStep(x, 3 * p);
    if Level(x) == 1 {
      XorStep(x / 2, 1);
      XorZero(x / 4);
      assert x / 2 / 2 == x / 4;
    } else {
      RightWord(x / 2);
      hide Xor;
      assert p == 2 * Pow2(Level(x / 2) - 1);
    }
  }

  lemma LeafFacts(x: NodeIndex)
    requires x % 2 == 0
    ensures Level(x) == 0 && Width(x) == 1 && Lo(x) == x / 2 && Hi(x) == x / 2 + 1
  {}

  ghost predicate ChildrenHalve(x: NodeIndex) {
    var l, r := LeftRec(x), RightRec(x);
    && Level(x) > 0 && Level(l) == Level(r) == Level(x) - 1 && 2 * Width(l) == 2 * Width(r) == Width(x)
    && Lo(l) == Lo(x) && 2 * Hi(l) == x + 1 && l < x
    && Hi(r) == Hi(x) && 2 * Lo(r) == x + 1 && r > x
  }

  lemma {:induction false} ChildRecFacts(x: NodeIndex)
    requires x % 2 == 1
    ensures ChildrenHalve(x)
  {
    hide Lo, Hi, Width, Level, LeftRec, RightRec;
    var y := x / 2;
    if y % 2 == 0 {
      PairParent(y);
      LeafFacts(2 * y);
      LeafFacts(2 * y + 2);
    } else {
      ChildRecFacts(y);
      ChildrenDoubled(y);
    }
  }

  lemma ChildrenDoubled(y: NodeIndex)
    requires y % 2 == 1 && ChildrenHalve(y)
    ensures ChildrenHalve(2 * y + 1)
  {
    hide Lo, Hi, Width, Level, LeftRec, RightRec, ParentRec;
    Doubled(y);
    Doubled(LeftRec(y));
    Doubled(RightRec(y));
  }

  lemma LeftBits(x: NodeIndex)
    requires !IsLeaf(x)
    ensures Xor(x, Shl(1, Level(x) - 1)) == LeftRec(x)
    ensures var r := LeftRec(x);
      && Level(r) == Level(x) - 1 && 2 * Width(r) == Width(x)
      && Lo(r) == Lo(x) && 2 * Hi(r) == x + 1 && r < x
  {
    hide Lo, Hi, Width, Level, LeftRec, RightRec, Xor, Shl;
    ShlIsProduct(1, Level(x) - 1);
    LeftWord(x);
    ChildRecFacts(x);
  }

  lemma RightBits(x: NodeIndex)
    requires !IsLeaf(x)
    ensures Xor(x, Shl(3, Level(x) - 1)) == RightRec(x)
    ensures var r := RightRec(x);
      && Level(r) == Level(x) - 1 && 2 * Width(r) == Width(x)
      && Hi(r) == Hi(x) && 2 * Lo(r) == x + 1 && r > x
  {
    hide Lo, Hi, Width, Level, LeftRec, RightRec, Xor, Shl;
    ShlIsProduct(3, Level(x) - 1);
    RightWord(x);
    ChildRecFacts(x);
  }

  lemma {:induction false} ParentBits(x: NodeIndex)
    ensures AndNot(Or(x, Shl(1, Level(x))), Shl(1, Level(x) + 1)) == ParentRec(x)
    ensures var r := ParentRec(x);
      && Level(r) == Level(x) + 1 && Width(r) == 2 * Width(x)
      && Within(x, r) && x != r && !IsLeaf(r)
      && (x == Left(r) || x == Right(r))
  {
    hide Lo, Hi, Width, Level, LeftRec, RightRec, ParentRec, Xor, Or, AndNot, Shl;
    var k := Level(x);
    ParentRecFacts(x);
    var r := ParentRec(x);
    LeftBits(r);
    RightBits(r);
    ShlIsProduct(1, k);
    ShlIsProduct(1, k + 1);
    ParentWord(x);
  }

  /** The node one level up in a tree of twice the size, with the same position. */
  lemma Doubled(y: nat)
    ensures var x := 2 * y + 1;
      && Level(x) == 1 + Level(y) && Width(x) == 2 * Width(y) && Lo(x) == 2 * Lo(y) && Hi(x) == 2 * Hi(y)
      && LeftRec(x) == (if y % 2 == 0 then x - 1 else 2 * LeftRec(y) + 1)
      && RightRec(x) == (if y % 2 == 0 then x + 1 else 2 * RightRec(y) + 1)
      && ParentRec(x) == 2 * ParentRec(y) + 1
  {
    assert (2 * y + 1) / 2 == y && (2 * y + 1) % 2 == 1;
  }

  lemma LeafPositions(z: nat)
    requires z % 2 == 0
    ensures LeftRec(2 * z + 1) == 2 * z && RightRec(2 * z + 1) == 2 * z + 2
    ensures ParentRec(2 * z) == 2 * z + 1 && ParentRec(2 * z + 2) == 2 * z + 1
  {
    assert (2 * z + 1) / 2 == z && 2 * z / 2 == z && (2 * z + 2) / 2 == z + 1;
  }

  /** The leftmost nodes of the first levels. */
  lemma SmallNodes()
    ensures Lo(1) == 0 && Hi(1) == 2 && Lo(3) == 0 && Hi(3) == 4 && Lo(7) == 0 && Hi(7) == 8
  {
    hide Lo, Hi, Width, Level, LeftRec, RightRec, ParentRec;
    LeafFacts(0);
    Doubled(0);
    Doubled(1);
    Doubled(3);
  }

  /** The parent of two adjacent leaves. */
  lemma PairParent(z: nat)
    requires z % 2 == 0
    ensures var r := 2 * z + 1;
      && r % 2 == 1 && Level(r) == 1 && Width(r) == 2 && Lo(r) == z && Hi(r) == z + 2
      && LeftRec(r) == 2 * z && RightRec(r) == 2 * z + 2
      && ParentRec(2 * z) == r && ParentRec(2 * z + 2) == r
  {
    hide Lo, Hi, Width, Level, LeftRec, RightRec, ParentRec;
    LeafPositions(z);
    LeafFacts(z);
    Doubled(z);
  }

  lemma ParentOfLeaf(x: NodeIndex)
    requires x % 2 == 0
    ensures var r := ParentRec(x);
      && Level(r) == 1 && Width(r) == 2 && Within(x, r) && r % 2 == 1
      && (x == LeftRec(r) || x == RightRec(r))
  {
    hide Lo, Hi, Width, Level, LeftRec, RightRec, ParentRec;
    LeafFacts(x);
    if (x / 2) % 2 == 0 {
      PairParent(x / 2);
      assert x == 2 * (x / 2);
    } else {
      PairParent(x / 2 - 1);
      assert x == 2 * (x / 2 - 1) + 2;
    }
  }

  lemma {:induction false} ParentRecFacts(x: NodeIndex)
    ensures var r := ParentRec(x);
      && Level(r) == Level(x) + 1 && Width(r) == 2 * Width(x)
      && Within(x, r) && x != r && r % 2 == 1
      && (x == LeftRec(r) || x == RightRec(r))
  {
    hide Lo, Hi, Width, Level, LeftRec, RightRec, ParentRec;
    if x % 2 == 0 {
      ParentOfLeaf(x);
      LeafFacts(x);
    } else {
      var y := x / 2;
      assert x == 2 * y + 1;
      Doubled(y);
      ParentRecFacts(y);
      Doubled(ParentRec(y));
    }
  }

  lemma ParentWordLeaf(x: NodeIndex)
    requires x % 2 == 0
    ensures AndNot(Or(x, 1), 2) == ParentRec(x)
  {
    OrZero(x / 2);
    OrComm(x / 2, 0);
    assert Or(x, 1) == 1 + 2 * Or(x / 2, 0);
    AndNotEven(x);
  }

  lemma {:induction false} ParentWord(x: NodeIndex)
    ensures AndNot(Or(x, Pow2(Level(x))), Pow2(Level(x) + 1)) == ParentRec(x)
  {
    if x % 2 == 0 {
      hide Or, AndNot;
      ParentWordLeaf(x);
    } else {
      var u := x / 2;
      var k := Level(u);
      assert Level(x) == k + 1 && Pow2(k + 1) == 2 * Pow2(k) && Pow2(k + 2) == 2 * Pow2(k + 1);
      assert ParentRec(x) == 2 * ParentRec(u) + 1;
      hide Or, AndNot, Pow2, Level, ParentRec;
      ParentWord(u);
      WordStep(x, Pow2(k));
    }
  }

  lemma WordStep(x: NodeIndex, p: nat)
    requires x % 2 == 1
    ensures AndNot(Or(x, 2 * p), 2 * (2 * p)) == 1 + 2 * AndNot(Or(x / 2, p), 2 * p)
  {
    hide Or, AndNot;
    OrStep(x, 2 * p);
    AndNotStep(1 + 2 * Or(x / 2, p), 2 * (2 * p));
  }

  lemma OrStep(x: nat, y: nat)
    requires y % 2 == 0
    ensures Or(x, y) == x % 2 + 2 * Or(x / 2, y / 2)
  {
    if x == 0 && y == 0 { assert Or(0, 0) == 0; }
  }

  lemma AndNotStep(x: nat, y: nat)
    requires y % 2 == 0
    ensures AndNot(x, y) == x % 2 + 2 * AndNot(x / 2, y / 2)
  {
    if x == 0 { assert AndNot(0, y / 2) == 0; }
  }

  lemma AndNotEven(x: nat)
    requires x % 2 == 0
    ensures AndNot(x + 1, 2) == if (x / 2) % 2 == 0 then x + 1 else x - 1
  {
    var y := x / 2;
    AndNotStep(x + 1, 2);
    assert (x + 1) / 2 == y;
    AndNotZero(y / 2);
    if y > 0 {
      assert AndNot(y, 1) == 2 * AndNot(y / 2, 0);
    }
  }

  /** The code compares the words above the level of `y`; the meaning is containment. */
  predicate IsBelow(x: NodeIndex, y: NodeIndex)
    ensures IsBelow(x, y) <==> Within(x, y)
  {
    BelowBits(x, y);
    Level(x) <= Level(y) && Shr(x, Level(y) + 1) == Shr(y, Level(y) + 1)
  }

  lemma BelowBits(x: NodeIndex, y: NodeIndex)
    ensures Level(x) <= Level(y) && Shr(x, Level(y) + 1) == Shr(y, Level(y) + 1) <==> Within(x, y)
  {
    BlockOfWord(y, x);
    Laminar(x, y);
    Laminar(y, x);
    LevelWidth(x, y);
  }

  /** The words that agree with `y` above its level are the indices between its outermost leaves. */
  lemma {:induction false} BlockOfWord(y: NodeIndex, z: nat)
    ensures Shr(z, Level(y) + 1) == Shr(y, Level(y) + 1) <==> 2 * Lo(y) <= z < 2 * Hi(y)
  {
    if y % 2 == 1 {
      BlockOfWord(y / 2, z / 2);
    } else {
      assert Shr(z, 1) == z / 2 && Shr(y, 1) == y / 2;
    }
  }

  /** `sibling(ancestor)`: the child of `ancestor` that `x` is not below; throws elsewhere. */
  function SiblingUnder(x: NodeIndex, ancestor: NodeIndex): (r: Result<NodeIndex>)
    ensures r.Ok? <==> Within(x, ancestor)
    ensures r.Ok? && x != ancestor ==>
      && ((r.value == Left(ancestor) && Within(x, Right(ancestor)))
          || (r.value == Right(ancestor) && Within(x, Left(ancestor))))
      && Apart(x, r.value)
  {
    InsideOneChild(x, ancestor);
    if !IsBelow(x, ancestor) then Err(InvalidParameter)
    else if IsBelow(x, Left(ancestor)) then Ok(Right(ancestor))
    else Ok(Left(ancestor))
  }

  lemma InsideOneChild(x: NodeIndex, y: NodeIndex)
    ensures Within(x, y) && x != y ==> !IsLeaf(y)
    ensures Within(x, y) && x != y && Within(x, Left(y)) ==> Apart(x, Right(y))
    ensures Within(x, y) && x != y && !Within(x, Left(y)) ==> Within(x, Right(y)) && Apart(x, Left(y))
  {
    Laminar(x, y);
    Laminar(x, Left(y));
    Laminar(Left(y), x);
    Laminar(x, Right(y));
    hide Lo, Hi, Width, Level, Left, Right;
  }

  function Sibling(x: NodeIndex): (r: NodeIndex)
    ensures r == Left(Parent(x)) || r == Right(Parent(x))
    ensures x == Left(Parent(x)) ==> r == Right(Parent(x))
    ensures x == Right(Parent(x)) ==> r == Left(Parent(x))
    ensures Apart(x, r) && Width(r) == Width(x) && Level(r) == Level(x)
  {
    SiblingUnder(x, Parent(x)).value
  }

  lemma NodeFromInterval(x: NodeIndex, y: NodeIndex)
    requires Within(x, y) && Within(y, x)
    ensures x == y
  {
    hide Lo, Hi;
  }

  /** A node is the parent of its two children. */
  lemma ParentOfChild(x: NodeIndex)
    requires !IsLeaf(x)
    ensures Parent(Left(x)) == x && Parent(Right(x)) == x
    ensures Sibling(Left(x)) == Right(x) && Sibling(Right(x)) == Left(x)
  {
    SameParent(Left(x), x);
    SameParent(Right(x), x);
  }

  lemma SameParent(c: NodeIndex, x: NodeIndex)
    requires !IsLeaf(x) && (c == Left(x) || c == Right(x))
    ensures Parent(c) == x
  {
    hide Lo, Hi, Width, Level, Left, Right, Parent;
    Laminar(Parent(c), x);
    Laminar(x, Parent(c));
  }

  // --------------------------------------------------------------------------
  // Full trees
  // --------------------------------------------------------------------------

  predicate IsPow2(n: nat) { n == 1 || (n > 0 && n % 2 == 0 && IsPow2(n / 2)) }

  function NodeCount(n: nat): nat { if n > 0 then 2 * (n - 1) + 1 else 0 }

  /** The node is part of a tree with `n` leaves. */
  predicate InTree(x: NodeIndex, n: nat) { x < NodeCount(n) }

  function Log2(x: nat): (r: nat)
    ensures x > 0 ==> Pow2(r) <= x < 2 * Pow2(r)
  {
    if x < 2 then 0 else 1 + Log2(x / 2)
  }

  lemma {:induction false} OnesBlock(h: nat)
    ensures Level(Pow2(h) - 1) == h && Lo(Pow2(h) - 1) == 0 && Hi(Pow2(h) - 1) == Pow2(h)
  {
    if h > 0 {
      OnesBlock(h - 1);
      assert (Pow2(h) - 1) / 2 == Pow2(h - 1) - 1;
    }
  }

  lemma {:induction false} Pow2IsPow2(h: nat)
    ensures IsPow2(Pow2(h))
  {
    if h > 0 { Pow2IsPow2(h - 1); }
  }

  lemma {:induction false} Pow2Unique(n: nat, h: nat)
    requires IsPow2(n) && n <= Pow2(h) < 2 * n
    ensures n == Pow2(h)
  {
    if n > 1 && h > 0 { Pow2Unique(n / 2, h - 1); }
  }

  /** The root is undefined for a tree without leaves. */
  function Root(n: nat): (r: Result<NodeIndex>)
    ensures r.Err? <==> n == 0
    ensures r.Ok? ==> Lo(r.value) == 0 && n <= Hi(r.value) < 2 * n
    ensures r.Ok? && IsPow2(n) ==> r.value == n - 1 && Hi(n - 1) == n && Lo(n - 1) == 0
  {
    if n == 0 then Err(RuntimeError)
    else
      var h := Log2(NodeCount(n));
      ShlIsProduct(1, h);
      OnesBlock(h);
      assert IsPow2(n) ==> n == Pow2(h) by { if IsPow2(n) { Pow2Unique(n, h); } }
      Ok(Shl(1, h) - 1)
  }

  lemma RootFacts(n: nat)
    requires IsPow2(n)
    ensures Root(n) == Ok(n - 1)
    ensures Lo(n - 1) == 0 && Hi(n - 1) == n && InTree(n - 1, n)
  {
  }

  /** `LeafCount::full`: the least power of two that is large enough. */
  method ComputeFull(n: nat) returns (w: nat)
    ensures IsPow2(w) && n <= w
    ensures w == 1 || w < 2 * n
  {
    w := 1;
    while w < n
      invariant IsPow2(w)
      invariant w == 1 || w < 2 * n
      decreases 2 * n - w
    {
      w := 2 * w;
    }
  }

  /** A node is in the tree exactly when all its leaves are. */
  lemma {:induction false} InTreeIsSpan(x: NodeIndex, n: nat)
    requires IsPow2(n)
    ensures InTree(x, n) <==> Hi(x) <= n
    ensures InTree(x, n) <==> Within(x, n - 1)
  {
    RootFacts(n);
    if n > 1 && x % 2 == 1 { InTreeIsSpan(x / 2, n / 2); }
  }

  /** Children stay in the tree, and so does the parent of a node other than the root. */
  lemma TreeClosed(x: NodeIndex, n: nat)
    requires IsPow2(n) && InTree(x, n)
    ensures InTree(Left(x), n) && InTree(Right(x), n)
    ensures x != n - 1 ==> InTree(Parent(x), n) && InTree(Sibling(x), n)
    ensures x == n - 1 <==> Width(x) == n
    ensures Width(x) <= n
  {
    hide Lo, Hi, Width, Level, Left, Right, Parent, Sibling, IsPow2, InTree;
    ChildrenInTree(x, n);
    WidestIsRoot(x, n);
    if x != n - 1 {
      ParentInTree(x, n);
      ChildrenInTree(Parent(x), n);
    }
  }

  lemma WidestIsRoot(x: NodeIndex, n: nat)
    requires IsPow2(n) && InTree(x, n)
    ensures x == n - 1 <==> Width(x) == n
    ensures Width(x) <= n
  {
    hide Lo, Hi, Width, Level, IsPow2, InTree, Root;
    RootFacts(n);
    if x != n - 1 { RootWidth(x, n); }
  }

  lemma RootWidth(x: NodeIndex, n: nat)
    requires IsPow2(n) && InTree(x, n) && x != n - 1
    ensures Width(x) < n
  {
    InTreeIsSpan(x, n);
    Laminar(x, n - 1);
    RootFacts(n);
    hide Lo, Hi, Width, Level, IsPow2;
  }

  lemma ChildrenInTree(x: NodeIndex, n: nat)
    requires IsPow2(n) && InTree(x, n)
    ensures InTree(Left(x), n) && InTree(Right(x), n)
  {
    hide Lo, Hi, Width, Level, Left, Right, IsPow2;
    if !IsLeaf(x) {
      InTreeIsSpan(x, n);
      InTreeIsSpan(Right(x), n);
    }
  }

  lemma ParentInTree(x: NodeIndex, n: nat)
    requires IsPow2(n) && InTree(x, n) && x != n - 1
    ensures InTree(Parent(x), n)
  {
    hide Lo, Hi, Width, Level, Left, Right, Parent, IsPow2;
    RootFacts(n);
    InTreeIsSpan(x, n);
    Laminar(Parent(x), n - 1);
    Laminar(n - 1, Parent(x));
    Laminar(x, n - 1);
    InTreeIsSpan(Parent(x), n);
  }

  // --------------------------------------------------------------------------
  // Direct path and copath
  // --------------------------------------------------------------------------

  /** The proper ancestors of `x`, bottom up, ending at the root. */
  ghost function DirPath(x: NodeIndex, n: nat): (d: seq<NodeIndex>)
    requires IsPow2(n) && InTree(x, n)
    ensures |d| == Level(n - 1) - Level(x)
    decreases n - Width(x)
  {
    TreeClosed(x, n);
    LevelWidth(n - 1, x);
    if x == n - 1 then [] else [Parent(x)] + DirPath(Parent(x), n)
  }

  /** `NodeIndex::dirpath` */
  method ComputeDirPath(x: NodeIndex, n: nat) returns (r: Result<seq<NodeIndex>>)
    requires n == 0 || IsPow2(n)
    ensures r.Ok? <==> InTree(x, n)
    ensures r.Err? ==> r.error == InvalidParameter
    ensures r.Ok? ==> r.value == DirPath(x, n)
  {
    hide Lo, Hi, Width, Level, Left, Right, Parent, IsPow2;
    if x >= NodeCount(n) { return Err(InvalidParameter); }
    var root := Root(n).value;
    var d := [];
    if x == root { return Ok(d); }
    TreeClosed(x, n);
    var p := Parent(x);
    while p != root
      invariant InTree(p, n)
      invariant DirPath(x, n) == d + [p] + DirPath(p, n)
      decreases n - Width(p)
    {
      TreeClosed(p, n);
      d := d + [p];
      p := Parent(p);
    }
    d := d + [p];
    return Ok(d);
  }

  /** The direct path lists exactly the other nodes whose subtree contains `x`. */
  lemma {:induction false} DirPathIsAncestors(x: NodeIndex, n: nat, y: NodeIndex)
    requires IsPow2(n) && InTree(x, n)
    ensures y in DirPath(x, n) <==> InTree(y, n) && Within(x, y) && y != x
    decreases n - Width(x)
  {
    hide Lo, Hi, Width, Level, Left, Right, Parent;
    TreeClosed(x, n);
    InTreeIsSpan(y, n);
    if x == n - 1 {
      RootFacts(n);
    } else {
      var p := Parent(x);
      DirPathIsAncestors(p, n, y);
      Laminar(p, y);
      Laminar(y, p);
      Laminar(x, y);
    }
  }

  lemma DirPathDistinct(x: NodeIndex, n: nat)
    requires IsPow2(n) && InTree(x, n)
    ensures var d := DirPath(x, n);
      && (forall i :: 0 <= i < |d| ==> Width(x) < Width(d[i]))
      && (forall i, j :: 0 <= i < j < |d| ==> Width(d[i]) < Width(d[j]))
    decreases n - Width(x)
  {
    hide Lo, Hi, Width, Level, Left, Right, Parent, IsPow2;
    TreeClosed(x, n);
    if x != n - 1 {
      DirPathDistinct(Parent(x), n);
      assert DirPath(x, n) == [Parent(x)] + DirPath(Parent(x), n);
    }
  }

  /** Nodes of one level are evenly spaced. */
  lemma {:induction false} NextOnLevel(x: NodeIndex)
    ensures Level(x + 2 * Width(x)) == Level(x) && Width(x + 2 * Width(x)) == Width(x)
  {
    if x % 2 == 1 {
      NextOnLevel(x / 2);
      assert (x + 2 * Width(x)) / 2 == x / 2 + 2 * Width(x / 2);
    }
  }

  lemma LevelSpacing(x: NodeIndex, y: NodeIndex)
    requires Level(x) == Level(y)
    ensures x < y ==> x + 2 * Width(x) <= y
    ensures Pow2(Level(x)) - 1 <= x
  {
    LevelWidth(x, y);
    WidthIsPow2(x);
    Laminar(x, y);
    Laminar(y, x);
    hide Lo, Hi, Width, Level;
  }

  /** Reachability by `parent`, the definition of "below" in a tree. */
  ghost predicate Climbs(x: NodeIndex, y: NodeIndex, steps: nat)
    decreases steps
  {
    if steps == 0 then x == y else Climbs(Parent(x), y, steps - 1)
  }

  lemma {:induction false} BelowIsReachable(x: NodeIndex, y: NodeIndex)
    ensures IsBelow(x, y) <==> Level(x) <= Level(y) && Climbs(x, y, Level(y) - Level(x))
    decreases Level(y) - Level(x)
  {
    hide Lo, Hi, Width, Level, Left, Right, Parent;
    Laminar(x, y);
    Laminar(y, x);
    if Level(x) < Level(y) {
      BelowIsReachable(Parent(x), y);
      Laminar(Parent(x), y);
      Laminar(y, Parent(x));
    }
  }

  ghost function Copath(x: NodeIndex, n: nat): (c: seq<NodeIndex>)
    requires IsPow2(n) && InTree(x, n)
    ensures |c| == Level(n - 1) - Level(x)
    decreases n - Width(x)
  {
    TreeClosed(x, n);
    LevelWidth(n - 1, x);
    if x == n - 1 then [] else [Sibling(x)] + Copath(Parent(x), n)
  }

  /** `NodeIndex::copath`: drop the root from the direct path, prepend the node, take siblings. */
  method ComputeCopath(x: NodeIndex, n: nat) returns (r: Result<seq<NodeIndex>>)
    requires n == 0 || IsPow2(n)
    ensures r.Ok? <==> InTree(x, n)
    ensures r.Err? ==> r.error == InvalidParameter
    ensures r.Ok? ==> r.value == Copath(x, n)
  {
    hide Lo, Hi, Width, Level, Left, Right, Parent, Sibling, IsPow2, DirPath, Copath;
    var d :- ComputeDirPath(x, n);
    CopathIsSiblings(x, n);
    if d == [] { return Ok([]); }
    d := ([x] + d)[..|d|];
    var c := [];
    for i := 0 to |d|
      invariant c == Copath(x, n)[..i]
    {
      c := c + [Sibling(d[i])];
    }
    return Ok(c);
  }

  lemma {:induction false} CopathIsSiblings(x: NodeIndex, n: nat)
    requires IsPow2(n) && InTree(x, n)
    ensures var d := [x] + DirPath(x, n);
      forall i :: 0 <= i < |Copath(x, n)| ==>
        Copath(x, n)[i] == Sibling(d[i]) && Parent(Copath(x, n)[i]) == d[i + 1]
    decreases n - Width(x)
  {
    hide Lo, Hi, Width, Level, Left, Right, Parent, Sibling, IsPow2, InTree;
    TreeClosed(x, n);
    if x != n - 1 {
      CopathIsSiblings(Parent(x), n);
      SiblingsParent(x);
      var c, d := Copath(Parent(x), n), [Parent(x)] + DirPath(Parent(x), n);
      assert Copath(x, n) == [Sibling(x)] + c && DirPath(x, n) == d;
      hide Copath, DirPath;
      assert ([x] + d)[0] == x && ([x] + d)[1] == Parent(x);
    }
  }

  lemma SiblingsParent(x: NodeIndex)
    ensures Parent(Sibling(x)) == Parent(x)
  {
    hide Lo, Hi, Width, Level, Left, Right, Parent;
    ParentOfChild(Parent(x));
  }

  /** The subtree of a node and the subtrees of its copath partition the leaves: no leaf is below
      two of them, and every leaf of the tree is below one. */
  lemma {:induction false} CopathPartition(x: NodeIndex, n: nat)
    requires IsPow2(n) && InTree(x, n)
    ensures forall i :: 0 <= i < |Copath(x, n)| ==> Apart(x, Copath(x, n)[i]) && InTree(Copath(x, n)[i], n)
    ensures forall i, j :: 0 <= i < j < |Copath(x, n)| ==> Apart(Copath(x, n)[i], Copath(x, n)[j])
    decreases n - Width(x)
  {
    hide Lo, Hi, Width, Level, Left, Right, Parent, Sibling, IsPow2;
    TreeClosed(x, n);
    if x != n - 1 {
      CopathPartition(Parent(x), n);
      var c := Copath(Parent(x), n);
      assert Copath(x, n) == [Sibling(x)] + c;
      forall i | 0 <= i < |c| ensures Apart(x, c[i]) && Apart(Sibling(x), c[i]) {
        assert Apart(Parent(x), c[i]);
      }
    }
  }

  lemma {:induction false} CopathCovers(x: NodeIndex, n: nat, leaf: LeafIndex)
    requires IsPow2(n) && InTree(x, n) && leaf < n && !Covers(x, leaf)
    ensures exists i :: 0 <= i < |Copath(x, n)| && Covers(Copath(x, n)[i], leaf)
    decreases n - Width(x)
  {
    hide Lo, Hi, Width, Level, Left, Right, Parent, Sibling, IsPow2;
    RootFacts(n);
    TreeClosed(x, n);
    var c := Copath(x, n);
    if Covers(Parent(x), leaf) {
      assert Covers(c[0], leaf);
    } else {
      CopathCovers(Parent(x), n, leaf);
      var i :| 0 <= i < |c| - 1 && Covers(Copath(Parent(x), n)[i], leaf);
      assert Covers(c[i + 1], leaf);
    }
  }

  // --------------------------------------------------------------------------
  // The common ancestor of two leaves
  // --------------------------------------------------------------------------

  /** `LeafIndex::ancestor`, the recursive form of its loop. */
  function Ancestor(a: LeafIndex, b: LeafIndex): (r: NodeIndex)
    ensures Covers(r, a) && Covers(r, b)
    ensures a == b <==> IsLeaf(r)
    decreases a + b
  {
    if a == b then LeafNodeIndex(a) else 2 * Ancestor(a / 2, b / 2) + 1
  }

  lemma AncestorStep(a: LeafIndex, b: LeafIndex)
    ensures a == b ==> Ancestor(a, b) == 2 * a
    ensures a != b ==> Ancestor(a, b) == 2 * Ancestor(a / 2, b / 2) + 1
  {}

  /** The node at a height in a tree whose leaves are groups of `p`. */
  ghost function Raised(p: nat, z: nat): int { p * z + p - 1 }

  /** Shifting both indices until they agree, then rebuilding an index from the common prefix. */
  method ComputeAncestor(a: LeafIndex, b: LeafIndex) returns (r: NodeIndex)
    ensures r == Ancestor(a, b)
  {
    hide Lo, Hi, Width, Level, Shl, Shr, Pow2, Ancestor, Raised, Covers, IsLeaf;
    AncestorStep(a, b);
    var ln: nat, rn: nat := LeafNodeIndex(a), LeafNodeIndex(b);
    if ln == rn { return ln; }
    var k: nat := 0;
    while ln != rn
      invariant k == 0 ==> ln == 2 * a && rn == 2 * b
      invariant k > 0 ==> Ancestor(a, b) == Raised(Pow2(k - 1), Ancestor(ln, rn))
      decreases ln + rn
    {
      HalfWord(ln);
      HalfWord(rn);
      AncestorStep(ln, rn);
      RaiseOnce(k, Ancestor(ln / 2, rn / 2));
      ln := Shr(ln, 1);
      rn := Shr(rn, 1);
      k := k + 1;
    }
    AncestorStep(ln, rn);
    var prefix := Shl(ln, k);
    var stop := Shl(1, k - 1);
    RebuildIndex(ln, k);
    return prefix + (stop - 1);
  }

  lemma HalfWord(x: nat)
    ensures Shr(x, 1) == x / 2
  {
    assert Shr(x / 2, 0) == x / 2;
  }

  lemma RebuildIndex(leaf: nat, k: nat)
    requires k > 0
    ensures Shl(1, k - 1) == Pow2(k - 1)
    ensures Shl(leaf, k) + (Shl(1, k - 1) - 1) == Raised(Pow2(k - 1), 2 * leaf)
  {
    ShlIsProduct(leaf, k);
    ShlIsProduct(1, k - 1);
    var p := Pow2(k - 1);
    assert Pow2(k) == 2 * p;
    assert leaf * (2 * p) == p * (2 * leaf);
  }

  lemma RaiseOnce(k: nat, z: nat)
    ensures Raised(Pow2(0), z) == z
    ensures k > 0 ==> Raised(Pow2(k - 1), 2 * z + 1) == Raised(Pow2(k), z)
  {
    assert Pow2(0) == 1;
    if k > 0 {
      var p := Pow2(k - 1);
      assert p * (2 * z + 1) + p == (2 * p) * z + 2 * p;
    }
  }

  lemma CoversHalf(y: NodeIndex, leaf: LeafIndex)
    requires !IsLeaf(y)
    ensures Covers(y, leaf) <==> Covers(y / 2, leaf / 2)
    ensures y == 2 * (y / 2) + 1
  {
    Doubled(y / 2);
    hide Lo, Hi, Width, Level;
  }

  lemma WithinDoubled(x: NodeIndex, y: NodeIndex)
    ensures Within(2 * x + 1, 2 * y + 1) <==> Within(x, y)
  {
    hide Lo, Hi, LeftRec, RightRec, ParentRec;
    Doubled(x);
    Doubled(y);
  }

  lemma {:induction false} AncestorIsLowest(a: LeafIndex, b: LeafIndex, y: NodeIndex)
    requires Covers(y, a) && Covers(y, b)
    ensures Within(Ancestor(a, b), y)
    decreases a + b
  {
    hide Lo, Hi, Width, Level, Ancestor;
    AncestorStep(a, b);
    if a != b {
      assert !IsLeaf(y);
      CoversHalf(y, a);
      CoversHalf(y, b);
      hide IsLeaf, Covers, Within;
      AncestorIsLowest(a / 2, b / 2, y / 2);
      WithinDoubled(Ancestor(a / 2, b / 2), y / 2);
    }
  }

  /** The two leaves are below different children of their common ancestor. */
  lemma {:induction false} AncestorSplits(a: LeafIndex, b: LeafIndex)
    requires a < b
    ensures var r := Ancestor(a, b); !IsLeaf(r) && Covers(Left(r), a) && Covers(Right(r), b)
    decreases a + b
  {
    if a / 2 != b / 2 {
      AncestorSplits(a / 2, b / 2);
    }
  }

  lemma {:induction false} AncestorSymmetric(a: LeafIndex, b: LeafIndex)
    ensures Ancestor(a, b) == Ancestor(b, a)
    decreases a + b
  {
    if a != b { AncestorSymmetric(a / 2, b / 2); }
  }
}
