/** utf16to8 of checked.h: UTF-16 (section 2 of RFC 2781) to the UTF-8 that StringUtils reads. */
module Utf16 {
  import opened Bytes
  import opened Utf8Title

  const LEAD_MIN: U16 := 0xD800
  const TRAIL_MIN: U16 := 0xDC00
  const TRAIL_MAX: U16 := 0xDFFF
  const CODE_POINT_MAX := 0x10_FFFF

  predicate IsLead(u: U16) { LEAD_MIN <= u < TRAIL_MIN }
  predicate IsTrail(u: U16) { TRAIL_MIN <= u <= TRAIL_MAX }

  /** is_code_point_valid */
  predicate Scalar(c: nat) { c <= CODE_POINT_MAX && !(LEAD_MIN <= c <= TRAIL_MAX) }

  /** The character of a surrogate pair, with the library's offset in 32 bits. */
  function Pair(lead: U16, trail: U16): U32
  {
    var l: nat, t: nat := lead, trail;
    Wrap32(l * 0x400 + t + (0x1_0000 - 0xD800 * 0x400 - 0xDC00))
  }

  lemma PairIs(lead: U16, trail: U16)
    requires IsLead(lead) && IsTrail(trail)
    ensures Pair(lead, trail) == 0x1_0000 + (lead - 0xD800) * 0x400 + (trail - 0xDC00)
    ensures 0x1_0000 <= Pair(lead, trail) && Scalar(Pair(lead, trail))
  {}

  /** The characters of a text, or the unit that is out of place. */
  datatype Reading = Good(cs: seq<CodePoint>) | Bad(unit: U16)

  function Before(c: CodePoint, r: Reading): Reading { if r.Good? then Good([c] + r.cs) else r }

  function Read(u: seq<U16>, i: nat): Reading
    requires i <= |u|
    decreases |u| - i
  {
    if i == |u| then Good([])
    else if IsLead(u[i]) then
      if i + 1 == |u| then Bad(u[i])
      else if IsTrail(u[i + 1]) then PairIs(u[i], u[i + 1]); Before(Pair(u[i], u[i + 1]), Read(u, i + 2))
      else Bad(u[i + 1])
    else if IsTrail(u[i]) then Bad(u[i])
    else Before(u[i], Read(u, i + 1))
  }

  ghost predicate Scalars(cs: seq<CodePoint>) { forall i | 0 <= i < |cs| :: Scalar(cs[i]) }

  /** Section 2.1 of RFC 2781. */
  function UnitsOf(c: CodePoint): (u: seq<U16>)
    requires Scalar(c)
    ensures 1 <= |u| <= 2
  {
    if c < 0x1_0000 then [c] else [0xD800 + (c - 0x1_0000) / 0x400, 0xDC00 + (c - 0x1_0000) % 0x400]
  }

  function Units(cs: seq<CodePoint>, i: nat): seq<U16>
    requires i <= |cs| && Scalars(cs)
    decreases |cs| - i
  {
    if i == |cs| then [] else UnitsOf(cs[i]) + Units(cs, i + 1)
  }

  lemma {:induction false} ReadShifts(pre: seq<U16>, u: seq<U16>, i: nat)
    requires i <= |u|
    ensures Read(pre + u, |pre| + i) == Read(u, i)
    decreases |u| - i
  {
    var all := pre + u;
    if i < |u| {
      assert all[|pre| + i] == u[i];
      if IsLead(u[i]) {
        if i + 1 < |u| {
          assert all[|pre| + i + 1] == u[i + 1];
          ReadShifts(pre, u, i + 2);
          assert |pre| + (i + 2) == |pre| + i + 2;
        }
      } else {
        ReadShifts(pre, u, i + 1);
        assert |pre| + (i + 1) == |pre| + i + 1;
      }
    }
  }

  lemma ReadOne(c: CodePoint, rest: seq<U16>)
    requires Scalar(c)
    ensures Read(UnitsOf(c) + rest, 0) == Before(c, Read(rest, 0))
  {
    var u := UnitsOf(c);
    ReadShifts(u, rest, 0);
    if c >= 0x1_0000 {
      var d: nat := c - 0x1_0000;
      assert (u + rest)[0] == 0xD800 + d / 0x400 && (u + rest)[1] == 0xDC00 + d % 0x400;
      PairIs(u[0], u[1]);
    } else {
      assert (u + rest)[0] == c;
    }
  }

  /** Text made of valid characters is read as them. */
  lemma {:induction false} UnitsRead(cs: seq<CodePoint>, i: nat)
    requires i <= |cs| && Scalars(cs)
    ensures Read(Units(cs, i), 0) == Good(cs[i..])
    decreases |cs| - i
  {
    hide UnitsOf, Scalar;
    if i < |cs| {
      UnitsRead(cs, i + 1);
      ReadOne(cs[i], Units(cs, i + 1));
      assert cs[i..] == [cs[i]] + cs[i + 1..];
    }
  }

  lemma UnitsTail(c: CodePoint, cs: seq<CodePoint>)
    requires Scalar(c) && Scalars(cs)
    ensures Scalars([c] + cs) && Units([c] + cs, 0) == UnitsOf(c) + Units(cs, 0)
  {
    UnitsShift([c], cs, 0);
  }

  lemma {:induction false} UnitsShift(pre: seq<CodePoint>, cs: seq<CodePoint>, i: nat)
    requires i <= |cs| && Scalars(cs) && Scalars(pre)
    ensures Scalars(pre + cs) && Units(pre + cs, |pre| + i) == Units(cs, i)
    decreases |cs| - i
  {
    hide UnitsOf, Scalars, Scalar;
    ScalarsConcat(pre, cs);
    if i < |cs| {
      UnitsShift(pre, cs, i + 1);
      assert (pre + cs)[|pre| + i] == cs[i];
      assert |pre| + (i + 1) == |pre| + i + 1;
    }
  }

  lemma ScalarsConcat(a: seq<CodePoint>, b: seq<CodePoint>)
    requires Scalars(a) && Scalars(b)
    ensures Scalars(a + b)
  {}

  /** Whatever is read without complaint is the text of valid characters, and of those only. */
  lemma {:induction false} ReadUnits(u: seq<U16>, i: nat)
    requires i <= |u|
    ensures Read(u, i).Good? ==> Scalars(Read(u, i).cs) && Units(Read(u, i).cs, 0) == u[i..]
    decreases |u| - i
  {
    hide Units, UnitsOf;
    if i == |u| {
      NoUnits();
    } else if Read(u, i).Good? {
      if IsLead(u[i]) {
        ReadUnits(u, i + 2);
        PairIs(u[i], u[i + 1]);
        PairUnits(u[i], u[i + 1]);
        UnitsTail(Pair(u[i], u[i + 1]), Read(u, i + 2).cs);
        assert u[i..] == [u[i], u[i + 1]] + u[i + 2..];
      } else {
        ReadUnits(u, i + 1);
        OneUnit(u[i]);
        UnitsTail(u[i], Read(u, i + 1).cs);
        assert u[i..] == [u[i]] + u[i + 1..];
      }
    }
  }

  /** The unit at i cannot stand there: a trail without lead, a lead at the end, or what follows a lead and is no
      trail, which is the one then named. */
  ghost predicate OutOfPlace(u: seq<U16>, i: nat, unit: U16)
  {
    || (i < |u| && IsTrail(u[i]) && unit == u[i])
    || (i + 1 == |u| && IsLead(u[i]) && unit == u[i])
    || (i + 1 < |u| && IsLead(u[i]) && !IsTrail(u[i + 1]) && unit == u[i + 1])
  }

  /** An exception names the first unit out of place: everything before it is the text of valid characters. */
  lemma {:induction false} ReadBad(u: seq<U16>, i: nat) returns (cs: seq<CodePoint>, at: nat)
    requires i <= |u| && Read(u, i).Bad?
    ensures Scalars(cs) && i <= at <= |u| && Units(cs, 0) == u[i..at] && OutOfPlace(u, at, Read(u, i).unit)
    decreases |u| - i
  {
    hide Units, UnitsOf;
    if IsLead(u[i]) && i + 1 < |u| && IsTrail(u[i + 1]) {
      cs, at := ReadBad(u, i + 2);
      PairIs(u[i], u[i + 1]);
      PairUnits(u[i], u[i + 1]);
      UnitsTail(Pair(u[i], u[i + 1]), cs);
      cs := [Pair(u[i], u[i + 1])] + cs;
      assert u[i..at] == [u[i], u[i + 1]] + u[i + 2..at];
    } else if !IsLead(u[i]) && !IsTrail(u[i]) {
      cs, at := ReadBad(u, i + 1);
      OneUnit(u[i]);
      UnitsTail(u[i], cs);
      cs := [u[i]] + cs;
      assert u[i..at] == [u[i]] + u[i + 1..at];
    } else {
      cs, at := [], i;
      NoUnits();
      assert u[i..i] == [];
    }
  }

  lemma NoUnits()
    ensures Scalars([]) && Units([], 0) == []
  {}

  lemma PairUnits(lead: U16, trail: U16)
    requires IsLead(lead) && IsTrail(trail)
    ensures Scalar(Pair(lead, trail)) && UnitsOf(Pair(lead, trail)) == [lead, trail]
  {
    PairIs(lead, trail);
  }

  lemma OneUnit(u: U16)
    requires !IsLead(u) && !IsTrail(u)
    ensures Scalar(u) && UnitsOf(u) == [u]
  {}

  /** The result of utf16to8 with append: the bytes, or the unit named by invalid_utf16. */
  datatype Converted = Bytes(s: Str) | InvalidUtf16(unit: U16)

  /** cs already read, r still to come. */
  function After(cs: seq<CodePoint>, r: Reading): Reading { if r.Good? then Good(cs + r.cs) else r }

  lemma AfterBefore(cs: seq<CodePoint>, c: CodePoint, r: Reading)
    ensures After(cs, Before(c, r)) == After(cs + [c], r)
  {
    assert r.Good? ==> cs + ([c] + r.cs) == (cs + [c]) + r.cs;
  }

  lemma AfterNothing(r: Reading)
    ensures After([], r) == r
  {
    assert r.Good? ==> [] + r.cs == r.cs;
  }

  lemma NothingEncoded()
    ensures EncodeAll([], 0) == []
  {}

  /** utf16to8 */
  method Utf16To8(u: seq<U16>) returns (r: Converted)
    ensures match Read(u, 0)
            case Good(cs) => r == Bytes(EncodeAll(cs, |cs|))
            case Bad(unit) => r == InvalidUtf16(unit)
  {
    hide Encode, EncodeAll, Pair, Before;
    AfterNothing(Read(u, 0));
    NothingEncoded();
    var result: Str := [];
    ghost var cs: seq<CodePoint> := [];
    var i := 0;
    while i < |u|
      invariant i <= |u| && result == EncodeAll(cs, |cs|) && Read(u, 0) == After(cs, Read(u, i))
      decreases |u| - i
    {
      var cp: U32 := u[i];
      i := i + 1;
      if IsLead(u[i - 1]) {
        if i == |u| { return InvalidUtf16(u[i - 1]); }
        i := i + 1;
        if !IsTrail(u[i - 1]) { return InvalidUtf16(u[i - 1]); }
        PairIs(u[i - 2], u[i - 1]);
        cp := Pair(u[i - 2], u[i - 1]);
      } else if IsTrail(u[i - 1]) {
        return InvalidUtf16(u[i - 1]);
      }
      EncodeStep(cs, cp);
      AfterBefore(cs, cp, Read(u, i));
      result := result + Encode(cp);
      cs := cs + [cp];
    }
    assert cs + [] == cs;
    return Bytes(result);
  }

  /** What utf16to8 writes of a text without zeros, UTF8_DecodeChar reads back as the same characters. */
  lemma ReadBackAsUtf8(cs: seq<CodePoint>)
    requires Scalars(cs) && NonZero(cs)
    ensures Read(Units(cs, 0), 0) == Good(cs) && DecodeFrom(EncodeAll(cs, |cs|), 0) == cs
  {
    UnitsRead(cs, 0);
    RoundTrip(cs);
    assert cs[0..] == cs;
  }
}
