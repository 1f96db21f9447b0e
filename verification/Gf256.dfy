/**
 Arithmetic of the finite field GF(2^8) with the reduction polynomial x^8 + x^4 + x^3 + x + 1
 (FIPS 197, section 4.2): addition is exclusive or, multiplication is built from Xtime.
 */
module Gf256 {
  type byte = bv8

  // GF_p8_mul3, which in spite of its name multiplies by x (FIPS 197, section 4.2.1).
  function Xtime(val: byte): byte {
    var x := val * 2;
    if val >= 0x80 then x ^ 0x1b else x
  }

  // Field addition.
  function Add(x: byte, y: byte): byte { x ^ y }

  lemma AddTwo(p: byte, q: byte)
    ensures Add(p, q) == p ^ q
  {}

  lemma AddThree(p: byte, q: byte, r: byte)
    ensures Add(Add(p, q), r) == p ^ q ^ r
  {}

  lemma AddPairs(p: byte, q: byte, r: byte, s: byte)
    ensures Add(Add(p, q), Add(r, s)) == p ^ q ^ r ^ s
  {}

  // Field multiplication: the sum of x * X^k over the bits k of c.
  function Mul(c: byte, x: byte): byte {
    var x1 := Xtime(x);
    var x2 := Xtime(x1);
    var x3 := Xtime(x2);
    var x4 := Xtime(x3);
    var x5 := Xtime(x4);
    var x6 := Xtime(x5);
    var x7 := Xtime(x6);
    (if c & 0x01 == 0 then 0 else x) ^ (if c & 0x02 == 0 then 0 else x1)
    ^ (if c & 0x04 == 0 then 0 else x2) ^ (if c & 0x08 == 0 then 0 else x3)
    ^ (if c & 0x10 == 0 then 0 else x4) ^ (if c & 0x20 == 0 then 0 else x5)
    ^ (if c & 0x40 == 0 then 0 else x6) ^ (if c & 0x80 == 0 then 0 else x7)
  }

  // The multiples the column steps use, each reached by doubling and adding as they do.
  function DoubleAdd(p: byte, x: byte): byte { Add(Xtime(p), x) }
  function Times3(x: byte): byte { DoubleAdd(x, x) }
  function Times5(x: byte): byte { DoubleAdd(Xtime(x), x) }
  function Times7(x: byte): byte { DoubleAdd(Times3(x), x) }
  function Times9(x: byte): byte { DoubleAdd(Xtime(Xtime(x)), x) }
  function Times11(x: byte): byte { DoubleAdd(Times5(x), x) }
  function Times13(x: byte): byte { DoubleAdd(Xtime(Times3(x)), x) }
  function Times14(x: byte): byte { Xtime(Times7(x)) }

  // Each multiple distributes over addition.

  lemma XtimeXor(x: byte, y: byte)
    ensures Xtime(x ^ y) == Xtime(x) ^ Xtime(y)
  {
    hide Xtime, Shifted;
    XtimeIsShifted(x);
    XtimeIsShifted(y);
    XtimeIsShifted(x ^ y);
    ShiftedXor(x, y);
  }

  // Doubling without a branch: the bit shifted out returns at places 0, 1, 3 and 4.
  function Shifted(x: byte): byte {
    var h := x >> 7;
    (x << 1) ^ h ^ (h << 1) ^ (h << 3) ^ (h << 4)
  }

  lemma XtimeIsShifted(x: byte)
    ensures Xtime(x) == Shifted(x)
  {}

  lemma ShiftedXor(x: byte, y: byte)
    ensures Shifted(x ^ y) == Shifted(x) ^ Shifted(y)
  {}

  lemma XtimeAdd(x: byte, y: byte)
    ensures Xtime(Add(x, y)) == Add(Xtime(x), Xtime(y))
  {
    hide Xtime, Add;
    XtimeXor(x, y);
    AddTwo(x, y);
    AddTwo(Xtime(x), Xtime(y));
  }

  lemma Interchange(p: byte, q: byte, r: byte, s: byte)
    ensures Add(Add(p, q), Add(r, s)) == Add(Add(p, r), Add(q, s))
  {
    hide Add;
    AddPairs(p, q, r, s);
    AddPairs(p, r, q, s);
  }

  lemma DoubleAddDistributes(p: byte, x: byte, q: byte, y: byte)
    ensures DoubleAdd(Add(p, q), Add(x, y)) == Add(DoubleAdd(p, x), DoubleAdd(q, y))
  {
    XtimeAdd(p, q);
    Interchange(Xtime(p), x, Xtime(q), y);
  }

  lemma Times3Add(x: byte, y: byte)
    ensures Times3(Add(x, y)) == Add(Times3(x), Times3(y))
  {
    DoubleAddDistributes(x, x, y, y);
  }

  lemma Times5Add(x: byte, y: byte)
    ensures Times5(Add(x, y)) == Add(Times5(x), Times5(y))
  {
    XtimeAdd(x, y);
    DoubleAddDistributes(Xtime(x), x, Xtime(y), y);
  }

  lemma Times7Add(x: byte, y: byte)
    ensures Times7(Add(x, y)) == Add(Times7(x), Times7(y))
  {
    Times3Add(x, y);
    DoubleAddDistributes(Times3(x), x, Times3(y), y);
  }

  lemma Times9Add(x: byte, y: byte)
    ensures Times9(Add(x, y)) == Add(Times9(x), Times9(y))
  {
    XtimeAdd(x, y);
    XtimeAdd(Xtime(x), Xtime(y));
    DoubleAddDistributes(Xtime(Xtime(x)), x, Xtime(Xtime(y)), y);
  }

  lemma Times11Add(x: byte, y: byte)
    ensures Times11(Add(x, y)) == Add(Times11(x), Times11(y))
  {
    Times5Add(x, y);
    DoubleAddDistributes(Times5(x), x, Times5(y), y);
  }

  lemma Times13Add(x: byte, y: byte)
    ensures Times13(Add(x, y)) == Add(Times13(x), Times13(y))
  {
    Times3Add(x, y);
    XtimeAdd(Times3(x), Times3(y));
    DoubleAddDistributes(Xtime(Times3(x)), x, Xtime(Times3(y)), y);
  }

  lemma Times14Add(x: byte, y: byte)
    ensures Times14(Add(x, y)) == Add(Times14(x), Times14(y))
  {
    Times7Add(x, y);
    XtimeAdd(Times7(x), Times7(y));
  }

  // Sums of four, the shape of every row of the column matrices.

  function Sum(p: byte, q: byte, r: byte, s: byte): byte { Add(Add(p, q), Add(r, s)) }

  lemma SumXtime(p: byte, q: byte, r: byte, s: byte)
    ensures Xtime(Sum(p, q, r, s)) == Sum(Xtime(p), Xtime(q), Xtime(r), Xtime(s))
  {
    XtimeAdd(p, q);
    XtimeAdd(r, s);
    XtimeAdd(Add(p, q), Add(r, s));
  }

  lemma SumTimes3(p: byte, q: byte, r: byte, s: byte)
    ensures Times3(Sum(p, q, r, s)) == Sum(Times3(p), Times3(q), Times3(r), Times3(s))
  {
    Times3Add(p, q);
    Times3Add(r, s);
    Times3Add(Add(p, q), Add(r, s));
  }

  lemma SumTimes9(p: byte, q: byte, r: byte, s: byte)
    ensures Times9(Sum(p, q, r, s)) == Sum(Times9(p), Times9(q), Times9(r), Times9(s))
  {
    Times9Add(p, q);
    Times9Add(r, s);
    Times9Add(Add(p, q), Add(r, s));
  }

  lemma SumTimes11(p: byte, q: byte, r: byte, s: byte)
    ensures Times11(Sum(p, q, r, s)) == Sum(Times11(p), Times11(q), Times11(r), Times11(s))
  {
    Times11Add(p, q);
    Times11Add(r, s);
    Times11Add(Add(p, q), Add(r, s));
  }

  lemma SumTimes13(p: byte, q: byte, r: byte, s: byte)
    ensures Times13(Sum(p, q, r, s)) == Sum(Times13(p), Times13(q), Times13(r), Times13(s))
  {
    Times13Add(p, q);
    Times13Add(r, s);
    Times13Add(Add(p, q), Add(r, s));
  }

  lemma SumTimes14(p: byte, q: byte, r: byte, s: byte)
    ensures Times14(Sum(p, q, r, s)) == Sum(Times14(p), Times14(q), Times14(r), Times14(s))
  {
    Times14Add(p, q);
    Times14Add(r, s);
    Times14Add(Add(p, q), Add(r, s));
  }

  lemma SumAdd(a0: byte, a1: byte, a2: byte, a3: byte, b0: byte, b1: byte, b2: byte, b3: byte)
    ensures Add(Sum(a0, a1, a2, a3), Sum(b0, b1, b2, b3))
         == Sum(Add(a0, b0), Add(a1, b1), Add(a2, b2), Add(a3, b3))
  {
    Interchange(a0, a1, b0, b1);
    Interchange(a2, a3, b2, b3);
    Interchange(Add(a0, a1), Add(a2, a3), Add(b0, b1), Add(b2, b3));
  }

  // Adding up a four by four table by rows or by columns gives the same.
  lemma SumTransposed(a0: byte, a1: byte, a2: byte, a3: byte, b0: byte, b1: byte, b2: byte, b3: byte,
                      c0: byte, c1: byte, c2: byte, c3: byte, d0: byte, d1: byte, d2: byte, d3: byte)
    ensures Sum(Sum(a0, a1, a2, a3), Sum(b0, b1, b2, b3), Sum(c0, c1, c2, c3), Sum(d0, d1, d2, d3))
         == Sum(Sum(a0, b0, c0, d0), Sum(a1, b1, c1, d1), Sum(a2, b2, c2, d2), Sum(a3, b3, c3, d3))
  {
    SumAdd(a0, a1, a2, a3, b0, b1, b2, b3);
    SumAdd(c0, c1, c2, c3, d0, d1, d2, d3);
    SumAdd(Add(a0, b0), Add(a1, b1), Add(a2, b2), Add(a3, b3), Add(c0, d0), Add(c1, d1), Add(c2, d2), Add(c3, d3));
  }

  // A sum may be read from any of its places onwards.
  lemma SumRotated(p: byte, q: byte, r: byte, s: byte)
    ensures Sum(p, q, r, s) == Sum(s, p, q, r)
  {
    hide Add;
    AddPairs(p, q, r, s);
    AddPairs(s, p, q, r);
  }

  lemma SumRotated2(p: byte, q: byte, r: byte, s: byte)
    ensures Sum(p, q, r, s) == Sum(r, s, p, q)
  {
    hide Add;
    AddPairs(p, q, r, s);
    AddPairs(r, s, p, q);
  }

  lemma SumRotated3(p: byte, q: byte, r: byte, s: byte)
    ensures Sum(p, q, r, s) == Sum(q, r, s, p)
  {
    hide Add;
    AddPairs(p, q, r, s);
    AddPairs(q, r, s, p);
  }

  lemma SumSwapped(p: byte, q: byte, r: byte, s: byte)
    ensures Sum(p, q, r, s) == Sum(p, s, r, q) == Sum(q, p, s, r)
    ensures Sum(p, q, r, s) == Sum(r, q, p, s) == Sum(s, r, q, p)
  {
    hide Add;
    AddPairs(p, q, r, s);
    AddPairs(p, s, r, q);
    AddPairs(q, p, s, r);
    AddPairs(r, q, p, s);
    AddPairs(s, r, q, p);
  }

  lemma SumOfOne(p: byte)
    ensures Sum(p, 0, 0, 0) == p
  {}

  // The multiples as sums of powers of X: d, q and o are x times X, X^2 and X^3.
  lemma Expanded(x: byte, d: byte, q: byte, o: byte)
    requires d == Xtime(x) && q == Xtime(d) && o == Xtime(q)
    ensures Times3(x) == Add(d, x)
    ensures Times9(x) == Add(o, x)
    ensures Times11(x) == Add(Add(o, d), x)
    ensures Times13(x) == Add(Add(o, q), x)
    ensures Times14(x) == Add(Add(o, q), d)
  {
    hide Add, Xtime;
    XtimeAdd(d, x);
    XtimeAdd(q, x);
    XtimeAdd(q, d);
    XtimeAdd(Add(q, d), x);
  }

  // The products of one column of the mixing matrix with the rows of its inverse:
  // one of them is {01}, the other three vanish.
  lemma InverseRows(x: byte)
    ensures Sum(Times14(Xtime(x)), Times11(x), Times13(x), Times9(Times3(x))) == x
    ensures Sum(Times14(Times3(x)), Times11(Xtime(x)), Times13(x), Times9(x)) == 0
    ensures Sum(Times14(x), Times11(Times3(x)), Times13(Xtime(x)), Times9(x)) == 0
    ensures Sum(Times14(x), Times11(x), Times13(Times3(x)), Times9(Xtime(x))) == 0
  {
    hide Add, Sum, Xtime;
    var d := Xtime(x);
    var q := Xtime(d);
    var o := Xtime(q);
    var p := Xtime(o);
    Expanded(x, d, q, o);
    Expanded(d, q, o, p);
    Times9Add(d, x);
    Times11Add(d, x);
    Times13Add(d, x);
    Times14Add(d, x);
    PowersCancel0(x, d, q, o, p);
    PowersCancel1(x, d, q, o, p);
    PowersCancel2(x, d, q, o, p);
    PowersCancel3(x, d, q, o, p);
  }

  // The four identities between powers behind InverseRows, by way of plain exclusive ors.

  lemma PowersCancel0(x: byte, d: byte, q: byte, o: byte, p: byte)
    ensures Sum(Add(Add(p, o), q), Add(Add(o, d), x), Add(Add(o, q), x), Add(Add(p, d), Add(o, x))) == x
  {
    hide Sum, Add;
    AddThree(p, o, q);
    AddThree(o, d, x);
    AddThree(o, q, x);
    AddPairs(p, d, o, x);
    SumOfXors(Add(Add(p, o), q), Add(Add(o, d), x), Add(Add(o, q), x), Add(Add(p, d), Add(o, x)),
              p ^ o ^ q, o ^ d ^ x, o ^ q ^ x, p ^ d ^ o ^ x);
  }

  lemma PowersCancel1(x: byte, d: byte, q: byte, o: byte, p: byte)
    ensures Sum(Add(Add(Add(p, o), q), Add(Add(o, q), d)), Add(Add(p, q), d), Add(Add(o, q), x), Add(o, x)) == 0
  {
    hide Sum, Add;
    AddThrees(p, o, q, o, q, d);
    AddThree(p, q, d);
    AddThree(o, q, x);
    AddTwo(o, x);
    SumOfXors(Add(Add(Add(p, o), q), Add(Add(o, q), d)), Add(Add(p, q), d), Add(Add(o, q), x), Add(o, x),
              p ^ o ^ q ^ o ^ q ^ d, p ^ q ^ d, o ^ q ^ x, o ^ x);
  }

  lemma PowersCancel2(x: byte, d: byte, q: byte, o: byte, p: byte)
    ensures Sum(Add(Add(o, q), d), Add(Add(Add(p, q), d), Add(Add(o, d), x)), Add(Add(p, o), d), Add(o, x)) == 0
  {
    hide Sum, Add;
    AddThree(o, q, d);
    AddThrees(p, q, d, o, d, x);
    AddThree(p, o, d);
    AddTwo(o, x);
    SumOfXors(Add(Add(o, q), d), Add(Add(Add(p, q), d), Add(Add(o, d), x)), Add(Add(p, o), d), Add(o, x),
              o ^ q ^ d, p ^ q ^ d ^ o ^ d ^ x, p ^ o ^ d, o ^ x);
  }

  lemma PowersCancel3(x: byte, d: byte, q: byte, o: byte, p: byte)
    ensures Sum(Add(Add(o, q), d), Add(Add(o, d), x), Add(Add(Add(p, o), d), Add(Add(o, q), x)), Add(p, d)) == 0
  {
    hide Sum, Add;
    AddThree(o, q, d);
    AddThree(o, d, x);
    AddThrees(p, o, d, o, q, x);
    AddTwo(p, d);
    SumOfXors(Add(Add(o, q), d), Add(Add(o, d), x), Add(Add(Add(p, o), d), Add(Add(o, q), x)), Add(p, d),
              o ^ q ^ d, o ^ d ^ x, p ^ o ^ d ^ o ^ q ^ x, p ^ d);
  }

  lemma AddThrees(p: byte, q: byte, r: byte, s: byte, t: byte, u: byte)
    ensures Add(Add(Add(p, q), r), Add(Add(s, t), u)) == p ^ q ^ r ^ s ^ t ^ u
  {
    hide Add;
    AddThree(p, q, r);
    AddThree(s, t, u);
    AddTwo(Add(Add(p, q), r), Add(Add(s, t), u));
  }

  lemma SumOfXors(p: byte, q: byte, r: byte, s: byte, p': byte, q': byte, r': byte, s': byte)
    requires p == p' && q == q' && r == r' && s == s'
    ensures Sum(p, q, r, s) == p' ^ q' ^ r' ^ s'
  {}

  // Multiplying by two constants in either order.
  lemma MultiplesCommute(x: byte)
    ensures Times9(Xtime(x)) == Xtime(Times9(x)) && Times9(Times3(x)) == Times3(Times9(x))
    ensures Times11(Xtime(x)) == Xtime(Times11(x)) && Times11(Times3(x)) == Times3(Times11(x))
    ensures Times13(Xtime(x)) == Xtime(Times13(x)) && Times13(Times3(x)) == Times3(Times13(x))
    ensures Times14(Xtime(x)) == Xtime(Times14(x)) && Times14(Times3(x)) == Times3(Times14(x))
  {
    var d := Xtime(x);
    XtimeAdd(d, x);
    XtimeAdd(Times3(x), x);
    XtimeAdd(Xtime(d), x);
    XtimeAdd(Xtime(Xtime(d)), x);
    XtimeAdd(Xtime(Times3(x)), x);
    XtimeAdd(Xtime(Times5(x)), x);
    XtimeAdd(Xtime(Xtime(Times3(x))), x);
    Times9Add(d, x);
    Times11Add(d, x);
    Times13Add(d, x);
    Times14Add(d, x);
  }

  // The same with the two matrices taken the other way round.
  lemma InverseColumns(x: byte)
    ensures Sum(Xtime(Times14(x)), Times3(Times9(x)), Times13(x), Times11(x)) == x
    ensures Sum(Xtime(Times11(x)), Times3(Times14(x)), Times9(x), Times13(x)) == 0
    ensures Sum(Xtime(Times13(x)), Times3(Times11(x)), Times14(x), Times9(x)) == 0
    ensures Sum(Xtime(Times9(x)), Times3(Times13(x)), Times11(x), Times14(x)) == 0
  {
    MultiplesCommute(x);
    InverseRows(x);
    SumSwapped(Times14(Xtime(x)), Times11(x), Times13(x), Times9(Times3(x)));
    SumSwapped(Times14(Times3(x)), Times11(Xtime(x)), Times13(x), Times9(x));
    SumSwapped(Times14(x), Times11(Times3(x)), Times13(Xtime(x)), Times9(x));
    SumSwapped(Times14(x), Times11(x), Times13(Times3(x)), Times9(Xtime(x)));
  }

  // Xtime and the doubling chains are the field products their names announce.
  lemma XtimeIsMul(x: byte)
    ensures Xtime(x) == Mul(2, x)
  {
    Expanded(x, Xtime(x), Xtime(Xtime(x)), Xtime(Xtime(Xtime(x))));
  }

  lemma Times3IsMul(x: byte)
    ensures Times3(x) == Mul(3, x)
  {
    Expanded(x, Xtime(x), Xtime(Xtime(x)), Xtime(Xtime(Xtime(x))));
  }

  lemma Times9IsMul(x: byte)
    ensures Times9(x) == Mul(9, x)
  {
    Expanded(x, Xtime(x), Xtime(Xtime(x)), Xtime(Xtime(Xtime(x))));
  }

  lemma Times11IsMul(x: byte)
    ensures Times11(x) == Mul(11, x)
  {
    Expanded(x, Xtime(x), Xtime(Xtime(x)), Xtime(Xtime(Xtime(x))));
  }

  lemma Times13IsMul(x: byte)
    ensures Times13(x) == Mul(13, x)
  {
    Expanded(x, Xtime(x), Xtime(Xtime(x)), Xtime(Xtime(Xtime(x))));
  }

  lemma Times14IsMul(x: byte)
    ensures Times14(x) == Mul(14, x)
  {
    Expanded(x, Xtime(x), Xtime(Xtime(x)), Xtime(Xtime(Xtime(x))));
  }
}
