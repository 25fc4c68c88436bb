/** Addition and subtraction of field elements, with and without carrying. */
module FieldOps {
  import opened Field
  import opened FieldPow

  /** Equality modulo p. */
  ghost predicate Cong(a: int, b: int) { ModP(a) == ModP(b) }

  lemma CongAdd(a: int, a': int, b: int, b': int)
    requires Cong(a, a') && Cong(b, b')
    ensures Cong(a + b, a' + b') && Cong(a - b, a' - b')
  {
    var i := ModPQuotient(a);
    var i' := ModPQuotient(a');
    var j := ModPQuotient(b);
    var j' := ModPQuotient(b');
    ModPUnique(a + b, a' + b', i - i' + j - j');
    ModPUnique(a - b, a' - b', i - i' - j + j');
  }

  lemma CongMul(a: int, a': int, b: int, b': int)
    requires Cong(a, a') && Cong(b, b')
    ensures Cong(Prod(a, b), Prod(a', b'))
  {
    ModPMul(a, a', b, b');
  }

  lemma CongMultiple(a: int, b: int, k: int)
    requires a == b + TimesP(k)
    ensures Cong(a, b)
  {
    ModPUnique(a, b, k);
  }

  ghost predicate Below(f: Fe, n: nat) {
    f.a0 < n && f.a1 < n && f.a2 < n && f.a3 < n && f.a4 < n
  }

  /** Limbs as a multiplication, a carry pass or a decoding leaves them. */
  const SMALL: nat := 0x8_0000_0004_0000

  ghost predicate Small(f: Fe) { Below(f, SMALL) }

  /** out = a + b, limb by limb */
  function FeAdd(a: Fe, b: Fe): (out: Fe)
    requires Below(a, 0x8000_0000_0000_0000) && Below(b, 0x8000_0000_0000_0000)
    ensures Value(out) == Value(a) + Value(b)
  {
    Fe(a.a0 + b.a0, a.a1 + b.a1, a.a2 + b.a2, a.a3 + b.a3, a.a4 + b.a4)
  }

  /** out = a - b + 2p: no limb underflows while b stays within 2p. */
  function FeSub(a: Fe, b: Fe): (out: Fe)
    requires Below(a, 0x8000_0000_0000_0000) && Below(b, 0xf_ffff_ffff_ffda)
    ensures Value(out) == Value(a) - Value(b) + TimesP(2) && Cong(Value(out), Value(a) - Value(b))
  {
    var out := Fe(a.a0 + 0xf_ffff_ffff_ffda - b.a0, a.a1 + 0xf_ffff_ffff_fffe - b.a1, a.a2 + 0xf_ffff_ffff_fffe - b.a2,
                  a.a3 + 0xf_ffff_ffff_fffe - b.a3, a.a4 + 0xf_ffff_ffff_fffe - b.a4);
    CongMultiple(Value(out), Value(a) - Value(b), 2);
    out
  }

  /** out = a - b + 4p, where b may be the result of an addition or subtraction. */
  function FeSubAfterBasic(a: Fe, b: Fe): (out: Fe)
    requires Below(a, 0x8000_0000_0000_0000) && Below(b, 0x1f_ffff_ffff_ffb4)
    ensures Value(out) == Value(a) - Value(b) + TimesP(4) && Cong(Value(out), Value(a) - Value(b))
  {
    var out := Fe(a.a0 + 0x1f_ffff_ffff_ffb4 - b.a0, a.a1 + 0x1f_ffff_ffff_fffc - b.a1, a.a2 + 0x1f_ffff_ffff_fffc - b.a2,
                  a.a3 + 0x1f_ffff_ffff_fffc - b.a3, a.a4 + 0x1f_ffff_ffff_fffc - b.a4);
    CongMultiple(Value(out), Value(a) - Value(b), 4);
    out
  }

  /** out = a + b, carried */
  method FeAddReduce(a: Fe, b: Fe) returns (out: Fe)
    requires Below(a, 0x1000_0000_0000_0000) && Below(b, 0x1000_0000_0000_0000)
    ensures ReducedLow(out) && Cong(Value(out), Value(a) + Value(b))
  {
    hide TimesP, Val51, ModP;
    var sum := FeAdd(a, b);
    out := Carried(sum);
  }

  /** out = a - b, carried */
  method FeSubReduce(a: Fe, b: Fe) returns (out: Fe)
    requires Below(a, 0x1000_0000_0000_0000) && Below(b, 0x1f_ffff_ffff_ffb4)
    ensures ReducedLow(out) && Cong(Value(out), Value(a) - Value(b))
  {
    hide TimesP, Val51, ModP;
    var diff := FeSubAfterBasic(a, b);
    out := Carried(diff);
  }

  /** out = -a, carried */
  method FeNeg(a: Fe) returns (out: Fe)
    requires Below(a, 0xf_ffff_ffff_ffda)
    ensures ReducedLow(out) && Cong(Value(out), 0 - Value(a))
  {
    hide TimesP, ModP, Val51;
    var diff := FeSub(ZERO, a);
    ZeroValue();
    out := Carried(diff);
  }

  const ZERO := Fe(0, 0, 0, 0, 0)

  lemma ZeroValue()
    ensures Value(ZERO) == 0
  {
  }

  /** One carry pass. */
  method Carried(x: Fe) returns (out: Fe)
    requires Below(x, 0x4000_0000_0000_0000)
    ensures ReducedLow(out) && Cong(Value(out), Value(x))
  {
    hide TimesP, Val51, ModP;
    ghost var k;
    out, k := CarryLimbs(x.a0, x.a1, x.a2, x.a3, x.a4);
    CongMultiple(Value(x), Value(out), k);
  }
}
