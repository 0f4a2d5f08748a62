/**
 Group 2, the shifts and rotates (opcodes C0-C1, D0-D3): the source moves one bit at a time,
 and these are the closed forms of what its loop computes, for any count and width.
 */
module Shifts {
  import opened Bits
  import opened Widths
  import opened Machine
  import opened Alu

  datatype Kind = Rol | Ror | Rcl | Rcr | Shl | Shr | Sar

  function One(b: bool): int { if b then 1 else 0 }

  /** A bit put in at weight `w`. */
  function At(b: bool, w: int): int { if b then w else 0 }

  /** One turn of the loop: the operand and the carry flag it leaves. */
  function Turn(k: Kind, w: nat, v: nat, cf: bool): (nat, bool)
    requires w > 0
  {
    var p, msb := Pow2(w), Pow2(w - 1);
    var high, low := Bit(v, w - 1), v % 2 == 1;
    match k
    case Rol => ((2 * v + One(high)) % p, high)
    case Ror => (v / 2 + At(low, msb), low)
    case Rcl => ((2 * v + One(cf)) % p, high)
    case Rcr => (v / 2 + At(cf, msb), low)
    case Shl => (2 * v % p, high)
    case Shr => (v / 2, low)
    case Sar => (v / 2 + At(high, msb), low)
  }

  function Turns(k: Kind, w: nat, n: nat, v: nat, cf: bool): (nat, bool)
    requires w > 0
    decreases n
  {
    if n == 0 then (v, cf) else var (x, c) := Turns(k, w, n - 1, v, cf); Turn(k, w, x, c)
  }

  /** The flags afterwards: none change for a count of zero. */
  function ShiftFlags(k: Kind, w: nat, n: nat, v: nat, fl: Word): Word
    requires w > 0
  {
    var (x, c) := Turns(k, w, n, v, HasFlag(fl, CF));
    if n == 0 then fl
    else SetFlag(SetFlag(SetFlag(SetFlag(fl, CF, c), ZF, x == 0), SF, Bit(x, w - 1)), PF, EvenParity(x % M8))
  }

  lemma Halves(w: nat)
    requires w > 0
    ensures Pow2(w) == 2 * Pow2(w - 1)
  {
  }

  lemma TopOf(v: nat, w: nat)
    requires w > 0 && v < Pow2(w)
    ensures One(Bit(v, w - 1)) == v / Pow2(w - 1) && v / Pow2(w - 1) <= 1
    ensures v == Pow2(w - 1) * One(Bit(v, w - 1)) + v % Pow2(w - 1)
  {
    TopBit(v, w);
    var p := Pow2(w - 1);
    if v >= p { DivIs(v, p, 1, v - p); } else { DivIs(v, p, 0, v); }
  }

  // ---- shifts ------------------------------------------------------------------------

  /** SHL multiplies modulo 2^w; CF is the last bit shifted out. */
  lemma {:induction false} ShlIs(w: nat, n: nat, v: nat, cf: bool)
    requires w > 0 && v < Pow2(w)
    ensures Turns(Shl, w, n, v, cf).0 == v * Pow2(n) % Pow2(w)
    ensures n > 0 ==> (Turns(Shl, w, n, v, cf).1 <==> Bit(v * Pow2(n - 1), w - 1))
    decreases n
  {
    var p := Pow2(w);
    if n == 0 {
      DivIs(v, p, 0, v);
    } else {
      ShlIs(w, n - 1, v, cf);
      var y: int := v * Pow2(n - 1);
      assert v * Pow2(n) == 2 * y;
      DoubleMod(y, p);
      LowBitsOnly(y, w, w - 1);
    }
  }

  lemma DoubleMod(y: int, p: nat)
    requires p > 0
    ensures 2 * (y % p) % p == 2 * y % p
  {
    var q := y / p;
    assert y == p * q + y % p;
    assert 2 * y == 2 * (y % p) + 2 * q * p;
    ModShift(2 * (y % p), 2 * q, p);
  }

  /** SHR divides; CF is the last bit shifted out. */
  lemma {:induction false} ShrIs(w: nat, n: nat, v: nat, cf: bool)
    requires w > 0
    ensures Turns(Shr, w, n, v, cf).0 == v / Pow2(n)
    ensures n > 0 ==> (Turns(Shr, w, n, v, cf).1 <==> Bit(v, n - 1))
    decreases n
  {
    if n > 0 {
      ShrIs(w, n - 1, v, cf);
      DivTwice(v, Pow2(n - 1), 2);
    }
  }

  /** SAR divides the two's-complement number, rounding down; CF is the last bit shifted out. */
  lemma {:induction false} SarIs(w: nat, n: nat, v: nat, cf: bool)
    requires w > 0 && v < Pow2(w)
    ensures var (r, c) := Turns(Sar, w, n, v, cf);
            && r < Pow2(w)
            && Signed(r, w) == Signed(v, w) / Pow2(n)
            && (n > 0 ==> (c <==> Bit(Signed(v, w), n - 1)))
    decreases n
  {
    if n > 0 {
      SarIs(w, n - 1, v, cf);
      var x := Turns(Sar, w, n - 1, v, cf).0;
      DivTwice(Signed(v, w), Pow2(n - 1), 2);
      SarTurn(w, x, cf);
    }
  }

  lemma SarTurn(w: nat, x: nat, cf: bool)
    requires w > 0 && x < Pow2(w)
    ensures var (r, c) := Turn(Sar, w, x, cf);
            r < Pow2(w) && Signed(r, w) == Signed(x, w) / 2 && (c <==> Signed(x, w) % 2 == 1)
  {
    TopBit(x, w);
    SarArith(Pow2(w), Pow2(w - 1), x, Bit(x, w - 1));
    hide Pow2, Bit;
  }

  lemma SarArith(p: int, h: int, x: int, hi: bool)
    requires p == 2 * h && 0 <= x < p && (hi <==> x >= h)
    ensures var r, s := x / 2 + At(hi, h), if x >= h then x - p else x;
            0 <= r < p && (if r >= h then r - p else r) == s / 2 && s % 2 == x % 2
  {
  }

  // ---- rotates -----------------------------------------------------------------------

  /** One place to the left around `u` bits, and one to the right. */
  function Left1(u: nat, x: nat): nat
    requires u > 0
  {
    2 * (x % Pow2(u - 1)) + x / Pow2(u - 1)
  }

  function Right1(u: nat, x: nat): nat
    requires u > 0
  {
    x / 2 + At(x % 2 == 1, Pow2(u - 1))
  }

  function Left(u: nat, n: nat, x: nat): nat
    requires u > 0
    decreases n
  {
    if n == 0 then x else Left1(u, Left(u, n - 1, x))
  }

  function Right(u: nat, n: nat, x: nat): nat
    requires u > 0
    decreases n
  {
    if n == 0 then x else Right1(u, Right(u, n - 1, x))
  }

  lemma LeftThenRight1(u: nat, x: nat)
    requires u > 0 && x < Pow2(u)
    ensures Left1(u, x) < Pow2(u) && Right1(u, Left1(u, x)) == x
  {
    Halves(u);
    BackAgain(Pow2(u - 1), x);
  }

  lemma BackAgain(h: int, x: int)
    requires h > 0 && 0 <= x < 2 * h
    ensures var y := 2 * (x % h) + x / h; 0 <= y < 2 * h && y / 2 + At(y % 2 == 1, h) == x
  {
    if x < h { DivIs(x, h, 0, x); } else { DivIs(x, h, 1, x - h); }
    var y := 2 * (x % h) + x / h;
    assert y % 2 == x / h;
    assert At(y % 2 == 1, h) == if x < h then 0 else h;
  }

  lemma {:induction false} LeftFits(u: nat, n: nat, x: nat)
    requires u > 0 && x < Pow2(u)
    ensures Left(u, n, x) < Pow2(u)
    decreases n
  {
    if n > 0 {
      LeftFits(u, n - 1, x);
      LeftThenRight1(u, Left(u, n - 1, x));
    }
  }

  lemma {:induction false} RightPeels(u: nat, n: nat, x: nat)
    requires u > 0
    ensures Right(u, n + 1, x) == Right(u, n, Right1(u, x))
    decreases n
  {
    hide Right1;
    if n > 0 { RightPeels(u, n - 1, x); }
  }

  /** Rotating right undoes rotating left, for every count. */
  lemma {:induction false} RightUndoesLeft(u: nat, n: nat, x: nat)
    requires u > 0 && x < Pow2(u)
    ensures Right(u, n, Left(u, n, x)) == x
    decreases n
  {
    hide Left1, Right1;
    if n > 0 {
      var y := Left(u, n - 1, x);
      LeftFits(u, n - 1, x);
      LeftThenRight1(u, y);
      RightPeels(u, n - 1, Left1(u, y));
      RightUndoesLeft(u, n - 1, x);
    }
  }

  lemma RightThenLeft1(u: nat, x: nat)
    requires u > 0 && x < Pow2(u)
    ensures Left1(u, Right1(u, x)) == x && Right1(u, x) < Pow2(u)
  {
    Halves(u);
    ForthAgain(Pow2(u - 1), x);
  }

  lemma ForthAgain(h: int, x: int)
    requires h > 0 && 0 <= x < 2 * h
    ensures var y := x / 2 + At(x % 2 == 1, h); 0 <= y < 2 * h && 2 * (y % h) + y / h == x
  {
    DivIs(x / 2 + At(x % 2 == 1, h), h, x % 2, x / 2);
  }

  lemma {:induction false} RightFits(u: nat, n: nat, x: nat)
    requires u > 0 && x < Pow2(u)
    ensures Right(u, n, x) < Pow2(u)
    decreases n
  {
    hide Right1;
    if n > 0 {
      RightFits(u, n - 1, x);
      RightThenLeft1(u, Right(u, n - 1, x));
    }
  }

  lemma {:induction false} LeftPeels(u: nat, n: nat, x: nat)
    requires u > 0
    ensures Left(u, n + 1, x) == Left(u, n, Left1(u, x))
    decreases n
  {
    hide Left1;
    if n > 0 { LeftPeels(u, n - 1, x); }
  }

  /** And rotating left undoes rotating right. */
  lemma {:induction false} LeftUndoesRight(u: nat, n: nat, x: nat)
    requires u > 0 && x < Pow2(u)
    ensures Left(u, n, Right(u, n, x)) == x
    decreases n
  {
    hide Left1, Right1;
    if n > 0 {
      var y := Right(u, n - 1, x);
      RightFits(u, n - 1, x);
      RightThenLeft1(u, y);
      LeftPeels(u, n - 1, Right1(u, y));
      LeftUndoesRight(u, n - 1, x);
    }
  }

  /** Rotating left by `n` swaps the high `n` bits and the low rest. */
  lemma {:induction false} LeftIs(u: nat, n: nat, x: nat)
    requires 0 < u && n <= u && x < Pow2(u)
    ensures Left(u, n, x) == x % Pow2(u - n) * Pow2(n) + x / Pow2(u - n)
    decreases n
  {
    if n == 0 {
      DivIs(x, Pow2(u), 0, x);
    } else {
      LeftIs(u, n - 1, x);
      Pow2Sum(u - n, n - 1);
      LeftStep(Pow2(u - n), Pow2(n - 1), x);
      assert Pow2(u - (n - 1)) == 2 * Pow2(u - n);
    }
  }

  /** The arithmetic of one more place: `m` and `k` are the weights of the two halves. */
  lemma LeftStep(m: int, k: int, x: int)
    requires m > 0 && k > 0 && 0 <= x < 2 * m * k
    ensures m * k > 0
    ensures var y := x % (2 * m) * k + x / (2 * m);
            2 * (y % (m * k)) + y / (m * k) == x % m * (2 * k) + x / m
  {
    var hi, t := HalfSteps(m, x);
    if hi >= k { MulMono(k, hi, 2 * m); }
    Weigh(m, k, x % m, t, hi);
  }

  lemma HalfSteps(m: int, x: int) returns (hi: int, t: int)
    requires m > 0 && 0 <= x
    ensures 0 <= t <= 1 && hi >= 0 && x / m == 2 * hi + t && x / (2 * m) == hi && x % (2 * m) == m * t + x % m
    ensures 2 * m * hi <= x
  {
    hi, t := x / m / 2, x / m % 2;
    var mt := m * t;
    assert mt == if t == 1 then m else 0;
    assert x == m * (x / m) + x % m;
    assert m * (2 * hi + t) == 2 * m * hi + mt;
    DivIs(x, 2 * m, hi, mt + x % m);
    if hi < 0 { MulMono(hi, -1, 2 * m); }
  }

  lemma Weigh(m: int, k: int, lo: int, t: int, hi: int)
    requires m > 0 && k > 0 && 0 <= lo < m && 0 <= t <= 1 && 0 <= hi < k
    ensures m * k > 0
    ensures var y := (m * t + lo) * k + hi;
            2 * (y % (m * k)) + y / (m * k) == lo * (2 * k) + (2 * hi + t)
  {
    var y := (m * t + lo) * k + hi;
    assert y == m * k * t + (lo * k + hi) by {
      assert (m * t + lo) * k == m * t * k + lo * k;
      assert m * t * k == m * k * t;
    }
    MulMono(lo, m - 1, k);
    assert (m - 1) * k == m * k - k;
    MulMono(0, lo, k);
    MulMono(1, m, k);
    DivIs(y, m * k, t, lo * k + hi);
    assert lo * (2 * k) == 2 * (lo * k);
  }

  /** A full turn around is no turn at all. */
  lemma FullTurn(u: nat, x: nat)
    requires u > 0 && x < Pow2(u)
    ensures Left(u, u, x) == x
  {
    LeftIs(u, u, x);
  }

  /** CF and the operand as one number, CF on top: what RCL and RCR rotate. */
  function Joint(w: nat, v: nat, cf: bool): nat { At(cf, Pow2(w)) + v }

  lemma RolTurn(w: nat, v: nat, cf: bool)
    requires w > 0 && v < Pow2(w)
    ensures Turn(Rol, w, v, cf).0 == Left1(w, v) && (Turn(Rol, w, v, cf).1 <==> v / Pow2(w - 1) == 1)
    ensures Turn(Ror, w, v, cf).0 == Right1(w, v) && Right1(w, v) < Pow2(w)
  {
    TopOf(v, w);
    Halves(w);
    var p, top := Pow2(w - 1), v / Pow2(w - 1);
    assert 2 * v + top == 2 * p * top + (2 * (v % p) + top);
    DivIs(2 * v + top, 2 * p, top, 2 * (v % p) + top);
  }

  lemma LeftJoint(w: nat, v: nat, cf: bool)
    ensures Left1(w + 1, Joint(w, v, cf)) == 2 * ((At(cf, Pow2(w)) + v) % Pow2(w)) + (At(cf, Pow2(w)) + v) / Pow2(w)
  {
    var p := Pow2(w);
    hide Pow2;
    assert w + 1 - 1 == w;
  }

  /** The rotates through one end, spelled out. */
  lemma TurnIs(w: nat, v: nat, cf: bool)
    requires w > 0
    ensures Turn(Rol, w, v, cf) == ((2 * v + One(Bit(v, w - 1))) % Pow2(w), Bit(v, w - 1))
    ensures Turn(Ror, w, v, cf) == (v / 2 + At(v % 2 == 1, Pow2(w - 1)), v % 2 == 1)
    ensures Turn(Rcl, w, v, cf) == ((2 * v + One(cf)) % Pow2(w), Bit(v, w - 1))
    ensures Turn(Rcr, w, v, cf) == (v / 2 + At(cf, Pow2(w - 1)), v % 2 == 1)
  {
    hide Bit, Pow2;
  }

  lemma RclTurn(w: nat, v: nat, cf: bool)
    requires w > 0 && v < Pow2(w)
    ensures var (r, c) := Turn(Rcl, w, v, cf); r < Pow2(w) && Joint(w, r, c) == Left1(w + 1, Joint(w, v, cf))
  {
    TurnIs(w, v, cf);
    TopBit(v, w);
    LeftJoint(w, v, cf);
    hide Pow2, Bit, Turn, Left1;
    JointLeft(Pow2(w), Pow2(w - 1), v, cf, Bit(v, w - 1));
  }

  lemma RcrTurn(w: nat, v: nat, cf: bool)
    requires w > 0 && v < Pow2(w)
    ensures var (r, c) := Turn(Rcr, w, v, cf); r < Pow2(w) && Joint(w, r, c) == Right1(w + 1, Joint(w, v, cf))
  {
    TurnIs(w, v, cf);
    Halves(w);
    RightJoint(w, v, cf);
    hide Pow2, Bit, Turn, Right1;
    JointRight(Pow2(w), Pow2(w - 1), v, cf);
  }

  lemma RightJoint(w: nat, v: nat, cf: bool)
    ensures Right1(w + 1, Joint(w, v, cf)) == (At(cf, Pow2(w)) + v) / 2 + At((At(cf, Pow2(w)) + v) % 2 == 1, Pow2(w))
  {
    var p := Pow2(w);
    hide Pow2;
    assert w + 1 - 1 == w;
  }

  lemma JointLeft(p: int, h: int, v: int, cf: bool, hi: bool)
    requires h > 0 && p == 2 * h && 0 <= v < p && (hi <==> v >= h)
    ensures var j, r := At(cf, p) + v, (2 * v + One(cf)) % p;
            0 <= r < p && At(hi, p) + r == 2 * (j % p) + j / p
  {
    DivIs(At(cf, p) + v, p, One(cf), v);
    DivIs(2 * v + One(cf), p, One(hi), 2 * v + One(cf) - At(hi, p));
  }

  lemma JointRight(p: int, h: int, v: int, cf: bool)
    requires h > 0 && p == 2 * h && 0 <= v < p
    ensures var j, r := At(cf, p) + v, v / 2 + At(cf, h);
            0 <= r < p && At(v % 2 == 1, p) + r == j / 2 + At(j % 2 == 1, p)
  {
    DivIs(At(cf, p) + v, 2, At(cf, h) + v / 2, v % 2);
  }

  /** ROL and ROR rotate the operand. */
  lemma {:induction false} RolIs(w: nat, n: nat, v: nat, cf: bool)
    requires w > 0 && v < Pow2(w)
    ensures Turns(Rol, w, n, v, cf).0 == Left(w, n, v) < Pow2(w)
    decreases n
  {
    hide Turn, Left1;
    if n > 0 {
      RolIs(w, n - 1, v, cf);
      var (x, c) := Turns(Rol, w, n - 1, v, cf);
      RolTurn(w, x, c);
      LeftThenRight1(w, x);
    }
  }

  lemma {:induction false} RorIs(w: nat, n: nat, v: nat, cf: bool)
    requires w > 0 && v < Pow2(w)
    ensures Turns(Ror, w, n, v, cf).0 == Right(w, n, v) < Pow2(w)
    decreases n
  {
    hide Turn, Right1;
    if n > 0 {
      RorIs(w, n - 1, v, cf);
      var (x, c) := Turns(Ror, w, n - 1, v, cf);
      RolTurn(w, x, c);
    }
  }

  /** RCL and RCR rotate the operand and CF together. */
  lemma {:induction false} RclIs(w: nat, n: nat, v: nat, cf: bool)
    requires w > 0 && v < Pow2(w)
    ensures var (r, c) := Turns(Rcl, w, n, v, cf); r < Pow2(w) && Joint(w, r, c) == Left(w + 1, n, Joint(w, v, cf))
    decreases n
  {
    hide Turn, Left1, Joint;
    if n > 0 {
      RclIs(w, n - 1, v, cf);
      var (x, c) := Turns(Rcl, w, n - 1, v, cf);
      RclTurn(w, x, c);
    }
  }

  lemma {:induction false} RcrIs(w: nat, n: nat, v: nat, cf: bool)
    requires w > 0 && v < Pow2(w)
    ensures var (r, c) := Turns(Rcr, w, n, v, cf); r < Pow2(w) && Joint(w, r, c) == Right(w + 1, n, Joint(w, v, cf))
    decreases n
  {
    hide Turn, Right1, Joint;
    if n > 0 {
      RcrIs(w, n - 1, v, cf);
      var (x, c) := Turns(Rcr, w, n - 1, v, cf);
      RcrTurn(w, x, c);
    }
  }

  /** ROL and ROR undo each other, in either order, and a count of the width changes nothing. */
  lemma RolRorInverse(w: nat, n: nat, v: nat, cf: bool, cf': bool)
    requires w > 0 && v < Pow2(w)
    ensures Turns(Ror, w, n, Turns(Rol, w, n, v, cf).0, cf').0 == v
    ensures Turns(Rol, w, n, Turns(Ror, w, n, v, cf).0, cf').0 == v
    ensures Turns(Rol, w, w, v, cf).0 == v
  {
    hide Turns, Left, Right;
    RolIs(w, w, v, cf);
    FullTurn(w, v);
    RolIs(w, n, v, cf);
    RorIs(w, n, Left(w, n, v), cf');
    RightUndoesLeft(w, n, v);
    RorIs(w, n, v, cf);
    RolIs(w, n, Right(w, n, v), cf');
    LeftUndoesRight(w, n, v);
  }

  /** RCL and RCR undo each other on operand and CF together, in either order; w + 1 turns are none. */
  lemma RclRcrInverse(w: nat, n: nat, v: nat, cf: bool)
    requires w > 0 && v < Pow2(w)
    ensures var (r, c) := Turns(Rcl, w, n, v, cf); Turns(Rcr, w, n, r, c) == (v, cf)
    ensures var (r, c) := Turns(Rcr, w, n, v, cf); Turns(Rcl, w, n, r, c) == (v, cf)
    ensures Turns(Rcl, w, w + 1, v, cf) == (v, cf) && Turns(Rcr, w, w + 1, v, cf) == (v, cf)
  {
    CarriedTurn(w, v, cf);
    hide Turns, Left, Right;
    var j := Joint(w, v, cf);
    var (l, lc) := Turns(Rcl, w, n, v, cf);
    var (r, rc) := Turns(Rcr, w, n, v, cf);
    var (x, d) := Turns(Rcr, w, n, l, lc);
    var (y, e) := Turns(Rcl, w, n, r, rc);
    JointFits(w, v, cf);
    hide Joint;
    RclIs(w, n, v, cf);
    RcrIs(w, n, l, lc);
    RightUndoesLeft(w + 1, n, j);
    JointOnce(w, x, d, v, cf);
    RcrIs(w, n, v, cf);
    RclIs(w, n, r, rc);
    LeftUndoesRight(w + 1, n, j);
    JointOnce(w, y, e, v, cf);
  }

  lemma JointFits(w: nat, v: nat, cf: bool)
    requires v < Pow2(w)
    ensures Joint(w, v, cf) < Pow2(w + 1)
  {
    Halves(w + 1);
  }

  lemma JointOnce(w: nat, v: nat, cf: bool, v': nat, cf': bool)
    requires v < Pow2(w) && v' < Pow2(w) && Joint(w, v, cf) == Joint(w, v', cf')
    ensures v == v' && cf == cf'
  {
  }

  /** A count in two parts. */
  lemma {:induction false} TurnsAdd(k: Kind, w: nat, n: nat, m: nat, v: nat, cf: bool)
    requires w > 0
    ensures var (x, c) := Turns(k, w, n, v, cf); Turns(k, w, n + m, v, cf) == Turns(k, w, m, x, c)
    decreases m
  {
    hide Turn;
    if m > 0 { TurnsAdd(k, w, n, m - 1, v, cf); }
  }

  /** A rotate is the same for a count one full turn larger: the width, or with CF one more. */
  lemma Periods(w: nat, n: nat, v: nat, cf: bool)
    requires w > 0 && v < Pow2(w)
    ensures Turns(Rol, w, n + w, v, cf).0 == Turns(Rol, w, n, v, cf).0
    ensures Turns(Ror, w, n + w, v, cf).0 == Turns(Ror, w, n, v, cf).0
    ensures Turns(Rcl, w, n + (w + 1), v, cf) == Turns(Rcl, w, n, v, cf)
    ensures Turns(Rcr, w, n + (w + 1), v, cf) == Turns(Rcr, w, n, v, cf)
  {
    hide Turns, Left, Right, Left1, Right1, Joint;
    var (l, lc) := Turns(Rol, w, n, v, cf);
    var (r, rc) := Turns(Ror, w, n, v, cf);
    TurnsAdd(Rol, w, n, w, v, cf);
    TurnsAdd(Ror, w, n, w, v, cf);
    RolIs(w, n, v, cf);
    RorIs(w, n, v, cf);
    RolIs(w, w, l, lc);
    FullTurn(w, l);
    RorIs(w, w, r, rc);
    FullTurn(w, r);
    RightUndoesLeft(w, w, r);
    CarriedPeriods(w, n, v, cf);
  }

  lemma CarriedPeriods(w: nat, n: nat, v: nat, cf: bool)
    requires w > 0 && v < Pow2(w)
    ensures Turns(Rcl, w, n + (w + 1), v, cf) == Turns(Rcl, w, n, v, cf)
    ensures Turns(Rcr, w, n + (w + 1), v, cf) == Turns(Rcr, w, n, v, cf)
  {
    hide Turns, Left, Right, Left1, Right1, Joint;
    var (l, lc) := Turns(Rcl, w, n, v, cf);
    var (r, rc) := Turns(Rcr, w, n, v, cf);
    TurnsAdd(Rcl, w, n, w + 1, v, cf);
    TurnsAdd(Rcr, w, n, w + 1, v, cf);
    RclIs(w, n, v, cf);
    RcrIs(w, n, v, cf);
    CarriedTurn(w, l, lc);
    CarriedTurn(w, r, rc);
  }

  /** w + 1 turns through CF are none. */
  lemma CarriedTurn(w: nat, v: nat, cf: bool)
    requires w > 0 && v < Pow2(w)
    ensures Turns(Rcl, w, w + 1, v, cf) == (v, cf) && Turns(Rcr, w, w + 1, v, cf) == (v, cf)
  {
    hide Turns, Left, Right;
    var j := Joint(w, v, cf);
    var (l, lc) := Turns(Rcl, w, w + 1, v, cf);
    var (r, rc) := Turns(Rcr, w, w + 1, v, cf);
    JointFits(w, v, cf);
    hide Joint;
    RclIs(w, w + 1, v, cf);
    RcrIs(w, w + 1, v, cf);
    FullTurn(w + 1, j);
    RightUndoesLeft(w + 1, w + 1, j);
    JointOnce(w, l, lc, v, cf);
    JointOnce(w, r, rc, v, cf);
  }

  /** The carry a rotate leaves is the bit it moved around the end. */
  lemma RotatedCarry(w: nat, n: nat, v: nat, cf: bool)
    requires w > 0 && v < Pow2(w) && n > 0
    ensures var (r, c) := Turns(Rol, w, n, v, cf); c <==> r % 2 == 1
    ensures var (r, c) := Turns(Ror, w, n, v, cf); c <==> Bit(r, w - 1)
  {
    hide Turn, Left, Right;
    RolIs(w, n - 1, v, cf);
    RorIs(w, n - 1, v, cf);
    var (x, xc) := Turns(Rol, w, n - 1, v, cf);
    var (y, yc) := Turns(Ror, w, n - 1, v, cf);
    LowCarry(w, x, xc);
    HighCarry(w, y, yc);
  }

  lemma LowCarry(w: nat, x: nat, cf: bool)
    requires w > 0
    ensures var (r, c) := Turn(Rol, w, x, cf); c <==> r % 2 == 1
  {
    TurnIs(w, x, cf);
    Halves(w);
    hide Turn, Bit, Pow2;
    LowBitIn(x, Bit(x, w - 1), Pow2(w), Pow2(w - 1));
  }

  lemma LowBitIn(x: int, b: bool, p: int, h: int)
    requires h > 0 && p == 2 * h
    ensures (2 * x + One(b)) % p % 2 == One(b)
  {
    var y := 2 * x + One(b);
    assert y == p * (y / p) + y % p;
    assert p * (y / p) == 2 * (h * (y / p));
    SameParity(y % p, h * (y / p));
    SameParity(One(b), x);
  }

  lemma HighCarry(w: nat, y: nat, cf: bool)
    requires w > 0 && y < Pow2(w)
    ensures var (r, c) := Turn(Ror, w, y, cf); c <==> Bit(r, w - 1)
  {
    TurnIs(w, y, cf);
    RolTurn(w, y, cf);
    TopBit(Turn(Ror, w, y, cf).0, w);
    hide Turn, Bit, Pow2, Right1;
  }

  // ---- the flags afterwards ----------------------------------------------------------

  /** CF is `c`, ZF, SF and PF are as the `w`-bit result `r` asks for, and the other flags are as in `fl`. */
  ghost predicate StatusAfter(fl: Word, g: Word, w: nat, r: int, c: bool)
    requires w > 0
  {
    && (HasFlag(g, CF) <==> c) && (HasFlag(g, ZF) <==> r == 0) && (HasFlag(g, SF) <==> Signed(r, w) < 0)
    && (HasFlag(g, PF) <==> Ones(r, 8) % 2 == 0)
    && forall k: nat :: k !in {CF, ZF, SF, PF} ==> HasFlag(g, k) == HasFlag(fl, k)
  }

  lemma FourFlags(fl: Word, w: nat, r: nat, c: bool)
    requires w > 0 && r < Pow2(w)
    ensures var sign, even := Bit(r, w - 1), EvenParity(r % M8);
            StatusAfter(fl, SetFlag(SetFlag(SetFlag(SetFlag(fl, CF, c), ZF, r == 0), SF, sign), PF, even), w, r, c)
  {
    TopBit(r, w);
    LowParity(r);
    hide Bit, WithBit, EvenParity, Pow2, Ones;
    var f1 := SetFlag(fl, CF, c);
    var f2 := SetFlag(f1, ZF, r == 0);
    var f3 := SetFlag(f2, SF, Bit(r, w - 1));
    forall k: nat
      ensures Bit(SetFlag(f3, PF, EvenParity(r % M8)), k)
              == if k == PF then EvenParity(r % M8) else if k == SF then Bit(r, w - 1) else if k == ZF then r == 0
                 else if k == CF then c else Bit(fl, k)
    {
      BitWithBit(fl, CF, c, k);
      BitWithBit(f1, ZF, r == 0, k);
      BitWithBit(f2, SF, Bit(r, w - 1), k);
      BitWithBit(f3, PF, EvenParity(r % M8), k);
    }
  }

  lemma LowParity(r: nat)
    ensures EvenParity(r % M8) <==> Ones(r, 8) % 2 == 0
  {
    ParityCounts(r % M8);
    OnesBelow(r, 8);
    Powers();
  }

  lemma {:induction false} OnesBelow(r: nat, n: nat)
    requires n <= 8
    ensures Ones(r % Pow2(8), n) == Ones(r, n)
    decreases n
  {
    hide Bit, Pow2;
    if n > 0 {
      OnesBelow(r, n - 1);
      LowBitsOnly(r, 8, n - 1);
    }
  }

  lemma FlagsOfTurns(k: Kind, w: nat, n: nat, v: nat, fl: Word, r: nat, c: bool)
    requires w > 0 && n > 0 && Turns(k, w, n, v, HasFlag(fl, CF)) == (r, c) && r < Pow2(w)
    ensures StatusAfter(fl, ShiftFlags(k, w, n, v, fl), w, r, c)
  {
    FourFlags(fl, w, r, c);
    hide Turns, Bit, SetFlag, StatusAfter, EvenParity;
  }

  /** A shift sets CF to the last bit it moved out, and the other flags by its result. */
  lemma ShlFlags(w: nat, n: nat, v: nat, fl: Word)
    requires w > 0 && v < Pow2(w) && n > 0
    ensures StatusAfter(fl, ShiftFlags(Shl, w, n, v, fl), w, v * Pow2(n) % Pow2(w), Bit(v * Pow2(n - 1), w - 1))
  {
    hide Turns, StatusAfter, ShiftFlags, Bit, Pow2, Signed;
    ShlIs(w, n, v, HasFlag(fl, CF));
    var r: nat, c := Turns(Shl, w, n, v, HasFlag(fl, CF)).0, Turns(Shl, w, n, v, HasFlag(fl, CF)).1;
    Reduced(v * Pow2(n), Pow2(w));
    FlagsOfTurns(Shl, w, n, v, fl, r, c);
  }

  lemma Reduced(x: int, p: int)
    requires p > 0
    ensures 0 <= x % p < p
  {
  }

  lemma ShrFlags(w: nat, n: nat, v: nat, fl: Word)
    requires w > 0 && v < Pow2(w) && n > 0
    ensures StatusAfter(fl, ShiftFlags(Shr, w, n, v, fl), w, v / Pow2(n), Bit(v, n - 1))
  {
    hide Turns, StatusAfter, ShiftFlags, Bit, Pow2, Signed;
    ShrIs(w, n, v, HasFlag(fl, CF));
    Smaller(v, Pow2(n));
    var r: nat, c := Turns(Shr, w, n, v, HasFlag(fl, CF)).0, Turns(Shr, w, n, v, HasFlag(fl, CF)).1;
    FlagsOfTurns(Shr, w, n, v, fl, r, c);
  }

  lemma SarFlags(w: nat, n: nat, v: nat, fl: Word)
    requires w > 0 && v < Pow2(w) && n > 0
    ensures StatusAfter(fl, ShiftFlags(Sar, w, n, v, fl), w,
                        Signed(v, w) / Pow2(n) % Pow2(w), Bit(Signed(v, w), n - 1))
  {
    hide Turns, StatusAfter, ShiftFlags, Bit, Pow2, Signed;
    SarIs(w, n, v, HasFlag(fl, CF));
    var r: nat, c := Turns(Sar, w, n, v, HasFlag(fl, CF)).0, Turns(Sar, w, n, v, HasFlag(fl, CF)).1;
    SignedBack(r, w);
    FlagsOfTurns(Sar, w, n, v, fl, r, c);
  }

  lemma Smaller(v: nat, d: nat)
    requires d > 0
    ensures 0 <= v / d <= v
  {
    if v / d > v { MulMono(v + 1, v / d, d); MulMono(1, d, v + 1); }
  }

  lemma SignedBack(r: nat, w: nat)
    requires w > 0 && r < Pow2(w)
    ensures Signed(r, w) % Pow2(w) == r
  {
    DivIs(r, Pow2(w), 0, r);
    ModShift(r, -1, Pow2(w));
  }

  /** So does a rotate: around the operand CF is the bit moved around the end, around operand and CF
      together it is the place above the operand. */
  lemma RotatedFlags(w: nat, n: nat, v: nat, fl: Word)
    requires w > 0 && v < Pow2(w) && n > 0
    ensures StatusAfter(fl, ShiftFlags(Rol, w, n, v, fl), w, Left(w, n, v), Left(w, n, v) % 2 == 1)
    ensures StatusAfter(fl, ShiftFlags(Ror, w, n, v, fl), w, Right(w, n, v), Bit(Right(w, n, v), w - 1))
    ensures var j := Left(w + 1, n, Joint(w, v, HasFlag(fl, CF)));
            StatusAfter(fl, ShiftFlags(Rcl, w, n, v, fl), w, j % Pow2(w), j >= Pow2(w))
    ensures var j := Right(w + 1, n, Joint(w, v, HasFlag(fl, CF)));
            StatusAfter(fl, ShiftFlags(Rcr, w, n, v, fl), w, j % Pow2(w), j >= Pow2(w))
  {
    hide Turns, StatusAfter, ShiftFlags, HasFlag, Bit, Pow2, Left, Right, Joint;
    var cf := HasFlag(fl, CF);
    RotatedCarry(w, n, v, cf);
    RolIs(w, n, v, cf);
    FlagsOfTurns(Rol, w, n, v, fl, Left(w, n, v), Left(w, n, v) % 2 == 1);
    RorIs(w, n, v, cf);
    FlagsOfTurns(Ror, w, n, v, fl, Right(w, n, v), Bit(Right(w, n, v), w - 1));
    RclIs(w, n, v, cf);
    var (l, lc) := Turns(Rcl, w, n, v, cf);
    JointParts(w, l, lc);
    FlagsOfTurns(Rcl, w, n, v, fl, l, lc);
    RcrIs(w, n, v, cf);
    var (r, rc) := Turns(Rcr, w, n, v, cf);
    JointParts(w, r, rc);
    FlagsOfTurns(Rcr, w, n, v, fl, r, rc);
  }

  lemma JointParts(w: nat, v: nat, cf: bool)
    requires v < Pow2(w)
    ensures Joint(w, v, cf) % Pow2(w) == v && (Joint(w, v, cf) >= Pow2(w) <==> cf)
  {
    DivIs(Joint(w, v, cf), Pow2(w), if cf then 1 else 0, v);
  }
}
