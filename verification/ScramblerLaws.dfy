/** The boot ROM generator as its three shift registers' recurrences, and the key stream it begins with. */
module ScramblerLaws {
  import opened Bits
  import opened Scrambler

  // ----- single bits -----

  /** Bit `i` of a number. */
  predicate Bit(r: nat, i: nat) {
    if i == 0 then r % 2 == 1 else Bit(r / 2, i - 1)
  }

  lemma {:induction false} XorBit(a: nat, b: nat, n: nat, i: nat)
    requires i < n
    ensures Bit(Xor(a, b, n), i) <==> Bit(a, i) != Bit(b, i)
  {
    hide Xor;
    XorParts(a, b, n);
    if i > 0 {
      XorBit(a / 2, b / 2, n - 1, i - 1);
    }
  }

  lemma {:induction false} NoHighBit(r: nat, n: nat, i: nat)
    requires r < Pow2(n) && n <= i
    ensures !Bit(r, i)
  {
    if n > 0 {
      NoHighBit(r / 2, n - 1, i - 1);
    } else if i > 0 {
      NoHighBit(0, 0, i - 1);
    }
  }

  /** A byte is masked bit by bit. */
  lemma ByteMasked(a: Byte, b: Byte, i: nat)
    requires i < 8
    ensures Bit(XorByte(a, b), i) <==> Bit(a, i) != Bit(b, i)
  {
    XorBit(a, b, 8, i);
  }

  /** A register moves down one place, and the bit that leaves it is fed back. */
  lemma ShiftBit(r: Word, feedback: Word, i: nat)
    requires i < 16
    ensures Bit(Shift(r, feedback), i) <==> Bit(r, i + 1) != (Bit(r, 0) && Bit(feedback, i))
  {
    hide Xor;
    XorBit(r / 2, feedback, 16, i);
  }

  // ----- recurrences -----

  /** A register after it has been clocked `k` times. */
  function Clocked(r: Word, feedback: Word, k: nat): Word {
    if k == 0 then r else Shift(Clocked(r, feedback, k - 1), feedback)
  }

  /** The bit a register gives after it has been clocked `k` times. */
  predicate Given(r: Word, feedback: Word, k: nat) {
    Bit(Clocked(r, feedback, k), 0)
  }

  /** Bit `i` after `k` more clockings: what stood `k` places up, and what has been fed back on the way. */
  predicate Arriving(r: Word, feedback: Word, k: nat, i: nat) {
    if k == 0 then Bit(r, i) else Arriving(r, feedback, k - 1, i + 1) != (Given(r, feedback, k - 1) && Bit(feedback, i))
  }

  lemma {:induction false} ArrivingIs(r: Word, feedback: Word, k: nat, i: nat)
    requires i + k <= 16
    ensures Bit(Clocked(r, feedback, k), i) == Arriving(r, feedback, k, i)
  {
    hide Bit, Shift;
    if k > 0 {
      ShiftBit(Clocked(r, feedback, k - 1), feedback, i);
      ArrivingIs(r, feedback, k - 1, i + 1);
    }
  }

  /** After sixteen clockings nothing is left of the start: the bit given is a sum of bits given before. */
  lemma Recurrence(r: Word, f: Word)
    ensures Given(r, f, 16) <==> FedBack(r, f, 16)
  {
    hide Bit, Clocked;
    ArrivingIs(r, f, 16, 0);
    Unrolled(r, f, 16);
    Pow2Of16();
    NoHighBit(r, 16, 16);
  }

  /** The sum of the bits given, each where the feedback has a one. */
  predicate FedBack(r: Word, f: Word, k: nat)
    requires k <= 16
  {
    if k == 0 then false else FedBack(r, f, k - 1) != (Given(r, f, 16 - k) && Bit(f, k - 1))
  }

  lemma {:induction false} Unrolled(r: Word, f: Word, k: nat)
    requires k <= 16
    ensures Arriving(r, f, 16, 0) <==> Arriving(r, f, 16 - k, k) != FedBack(r, f, k)
  {
    hide Given, Bit;
    if k > 0 {
      Unrolled(r, f, k - 1);
    }
  }

  lemma LowHalf(r: Word, f: Word)
    ensures FedBack(r, f, 8) <==>
            (((Given(r, f, 15) && Bit(f, 0)) != (Given(r, f, 14) && Bit(f, 1))) !=
             ((Given(r, f, 13) && Bit(f, 2)) != (Given(r, f, 12) && Bit(f, 3)))) !=
            (((Given(r, f, 11) && Bit(f, 4)) != (Given(r, f, 10) && Bit(f, 5))) !=
             ((Given(r, f, 9) && Bit(f, 6)) != (Given(r, f, 8) && Bit(f, 7))))
  {
    hide Given, Bit;
    assert FedBack(r, f, 1) <==> Given(r, f, 15) && Bit(f, 0);
    assert FedBack(r, f, 2) <==> (Given(r, f, 15) && Bit(f, 0)) != (Given(r, f, 14) && Bit(f, 1));
    assert FedBack(r, f, 4) <==> FedBack(r, f, 2) != ((Given(r, f, 13) && Bit(f, 2)) != (Given(r, f, 12) && Bit(f, 3)));
    assert FedBack(r, f, 6) <==> FedBack(r, f, 4) != ((Given(r, f, 11) && Bit(f, 4)) != (Given(r, f, 10) && Bit(f, 5)));
  }

  lemma HighHalf(r: Word, f: Word)
    ensures FedBack(r, f, 16) <==>
            FedBack(r, f, 8) !=
            ((((Given(r, f, 7) && Bit(f, 8)) != (Given(r, f, 6) && Bit(f, 9))) !=
              ((Given(r, f, 5) && Bit(f, 10)) != (Given(r, f, 4) && Bit(f, 11)))) !=
             (((Given(r, f, 3) && Bit(f, 12)) != (Given(r, f, 2) && Bit(f, 13))) !=
              ((Given(r, f, 1) && Bit(f, 14)) != (Given(r, f, 0) && Bit(f, 15)))))
  {
    hide Given, Bit;
    assert FedBack(r, f, 10) <==> FedBack(r, f, 8) != ((Given(r, f, 7) && Bit(f, 8)) != (Given(r, f, 6) && Bit(f, 9)));
    assert FedBack(r, f, 12) <==> FedBack(r, f, 10) != ((Given(r, f, 5) && Bit(f, 10)) != (Given(r, f, 4) && Bit(f, 11)));
    assert FedBack(r, f, 14) <==> FedBack(r, f, 12) != ((Given(r, f, 3) && Bit(f, 12)) != (Given(r, f, 2) && Bit(f, 13)));
  }

  lemma UpperByte(r: nat, i: nat)
    ensures Bit(r, i + 8) == Bit(r / 256, i)
  {
    assert Bit(r, i + 8) == Bit(r / 2, i + 7);
    assert Bit(r / 2, i + 7) == Bit(r / 2 / 2, i + 6);
    assert Bit(r / 4, i + 6) == Bit(r / 4 / 2, i + 5);
    assert Bit(r / 8, i + 5) == Bit(r / 8 / 2, i + 4);
    assert Bit(r / 16, i + 4) == Bit(r / 16 / 2, i + 3);
    assert Bit(r / 32, i + 3) == Bit(r / 32 / 2, i + 2);
    assert Bit(r / 64, i + 2) == Bit(r / 64 / 2, i + 1);
    assert Bit(r / 128, i + 1) == Bit(r / 128 / 2, i);
  }

  lemma LowT()
    ensures !Bit(0xa740, 0) && !Bit(0xa740, 1) && !Bit(0xa740, 2) && !Bit(0xa740, 3) && !Bit(0xa740, 4) && !Bit(0xa740, 5) && Bit(0xa740, 6) && !Bit(0xa740, 7)
  {}

  lemma HighT()
    ensures Bit(0xa7, 0) && Bit(0xa7, 1) && Bit(0xa7, 2) && !Bit(0xa7, 3) && !Bit(0xa7, 4) && Bit(0xa7, 5) && !Bit(0xa7, 6) && Bit(0xa7, 7)
  {}

  /** Register t: each bit it gives is the sum of those given 16, 14, 11, 10, 9 and 7 clockings before. */
  lemma RegisterT(r: Word)
    ensures Given(r, 0xa740, 16) <==>
            ((((Given(r, 0xa740, 0) != Given(r, 0xa740, 2)) != Given(r, 0xa740, 5)) != Given(r, 0xa740, 6)) != Given(r, 0xa740, 7)) !=
            Given(r, 0xa740, 9)
  {
    LowT();
    HighT();
    forall i | 0 <= i < 8 ensures Bit(0xa740, i + 8) == Bit(0xa7, i) {
      UpperByte(0xa740, i);
    }
    hide Bit, Given, FedBack;
    Recurrence(r, 0xa740);
    LowHalf(r, 0xa740);
    HighHalf(r, 0xa740);
  }

  lemma LowU()
    ensures !Bit(0xfb10, 0) && !Bit(0xfb10, 1) && !Bit(0xfb10, 2) && !Bit(0xfb10, 3) && Bit(0xfb10, 4) && !Bit(0xfb10, 5) && !Bit(0xfb10, 6) && !Bit(0xfb10, 7)
  {}

  lemma HighU()
    ensures Bit(0xfb, 0) && Bit(0xfb, 1) && !Bit(0xfb, 2) && Bit(0xfb, 3) && Bit(0xfb, 4) && Bit(0xfb, 5) && Bit(0xfb, 6) && Bit(0xfb, 7)
  {}

  /** Register u: each bit it gives is the sum of those given 16, 15, 14, 13, 12, 10, 9 and 5 clockings before. */
  lemma RegisterU(r: Word)
    ensures Given(r, 0xfb10, 16) <==>
            ((((((Given(r, 0xfb10, 0) != Given(r, 0xfb10, 1)) != Given(r, 0xfb10, 2)) != Given(r, 0xfb10, 3)) != Given(r, 0xfb10, 4)) != Given(r, 0xfb10, 6)) != Given(r, 0xfb10, 7)) !=
            Given(r, 0xfb10, 11)
  {
    LowU();
    HighU();
    forall i | 0 <= i < 8 ensures Bit(0xfb10, i + 8) == Bit(0xfb, i) {
      UpperByte(0xfb10, i);
    }
    hide Bit, Given, FedBack;
    Recurrence(r, 0xfb10);
    LowHalf(r, 0xfb10);
    HighHalf(r, 0xfb10);
  }

  lemma LowV()
    ensures !Bit(0xb3d0, 0) && !Bit(0xb3d0, 1) && !Bit(0xb3d0, 2) && !Bit(0xb3d0, 3) && Bit(0xb3d0, 4) && !Bit(0xb3d0, 5) && Bit(0xb3d0, 6) && Bit(0xb3d0, 7)
  {}

  lemma HighV()
    ensures Bit(0xb3, 0) && Bit(0xb3, 1) && !Bit(0xb3, 2) && !Bit(0xb3, 3) && Bit(0xb3, 4) && Bit(0xb3, 5) && !Bit(0xb3, 6) && Bit(0xb3, 7)
  {}

  /** Register v: each bit it gives is the sum of those given 16, 14, 13, 10, 9, 8, 7 and 5 clockings before. */
  lemma RegisterV(r: Word)
    ensures Given(r, 0xb3d0, 16) <==>
            ((((((Given(r, 0xb3d0, 0) != Given(r, 0xb3d0, 2)) != Given(r, 0xb3d0, 3)) != Given(r, 0xb3d0, 6)) != Given(r, 0xb3d0, 7)) != Given(r, 0xb3d0, 8)) != Given(r, 0xb3d0, 9)) !=
            Given(r, 0xb3d0, 11)
  {
    LowV();
    HighV();
    forall i | 0 <= i < 8 ensures Bit(0xb3d0, i + 8) == Bit(0xb3, i) {
      UpperByte(0xb3d0, i);
    }
    hide Bit, Given, FedBack;
    Recurrence(r, 0xb3d0);
    LowHalf(r, 0xb3d0);
    HighHalf(r, 0xb3d0);
  }

  // ----- one turn -----

  /** The first register is clocked at every turn, the second when it gives 0, the third when it gives what the second gives. */
  lemma ClockedWhen(r: Registers)
    ensures var s := Clock(r);
            && s.t == Clocked(r.t, 0xa740, 1)
            && s.u == Clocked(r.u, 0xfb10, if Bit(r.t, 0) then 0 else 1)
            && s.v == Clocked(r.v, 0xb3d0, if Bit(r.t, 0) == Bit(r.u, 0) then 1 else 0)
  {
    hide XorWord;
  }

  /** The output bit changes by t0 + t1 + u0 + u1 + v0 + t0 u0 + t0 u1 + t0 v0 + u0 v0 modulo 2. */
  lemma OutputChanges(r: Registers)
    ensures var t0, t1, u0, u1, v0 := Bit(r.t, 0), Bit(r.t, 1), Bit(r.u, 0), Bit(r.u, 1), Bit(r.v, 0);
            Clock(r).x != r.x <==>
            (t0 != t1) != ((u0 != u1) != (v0 != (((t0 && u0) != (t0 && u1)) != ((t0 && v0) != (u0 && v0)))))
  {
    hide XorWord;
    assert Bit(r.t, 1) == Bit(r.t / 2, 0) && Bit(r.u, 1) == Bit(r.u / 2, 0);
  }

  /** The registers the generator starts from. */
  lemma StartsFrom()
    ensures After(0) == Registers(0x2953, 0xd9c2, 0x3ff1, true)
  {}
}
