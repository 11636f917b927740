/** The order of 32-bit unsigned integers is total. The solver cannot show this for whole words, so
    it is built up byte by byte.
 */
module UnsignedOrder {

  predicate Less(a: bv32, b: bv32) {
    a < b
  }

  function Upper24(a: bv32): (r: bv32)
    ensures r < 0x100
  {
    a >> 24
  }

  function Lower24(a: bv32): (r: bv32)
    ensures r < 0x1000000
  {
    a & 0xffffff
  }

  function Upper16(a: bv32): (r: bv32)
    ensures a < 0x1000000 ==> r < 0x100
  {
    a >> 16
  }

  function Lower16(a: bv32): (r: bv32)
    ensures r < 0x10000
  {
    a & 0xffff
  }

  function Upper8(a: bv32): (r: bv32)
    ensures a < 0x10000 ==> r < 0x100
  {
    a >> 8
  }

  function Lower8(a: bv32): (r: bv32)
    ensures r < 0x100
  {
    a & 0xff
  }

  lemma Split24(a: bv32, b: bv32)
    ensures Less(a, b) <==>
            Less(Upper24(a), Upper24(b)) || (Upper24(a) == Upper24(b) && Less(Lower24(a), Lower24(b)))
  {
  }

  lemma Split16(a: bv32, b: bv32)
    requires a < 0x1000000 && b < 0x1000000
    ensures Less(a, b) <==>
            Less(Upper16(a), Upper16(b)) || (Upper16(a) == Upper16(b) && Less(Lower16(a), Lower16(b)))
  {
  }

  lemma Split8(a: bv32, b: bv32)
    requires a < 0x10000 && b < 0x10000
    ensures Less(a, b) <==>
            Less(Upper8(a), Upper8(b)) || (Upper8(a) == Upper8(b) && Less(Lower8(a), Lower8(b)))
  {
  }

  lemma ByteOrder(a: bv32, b: bv32, c: bv32)
    requires a < 0x100 && b < 0x100 && c < 0x100
    ensures !Less(a, b) && !Less(b, c) ==> !Less(a, c) && (a == c ==> a == b)
  {
  }

  lemma Order16(a: bv32, b: bv32, c: bv32)
    requires a < 0x10000 && b < 0x10000 && c < 0x10000
    requires !Less(a, b) && !Less(b, c)
    ensures !Less(a, c)
  {
    hide *;
    Split8(a, b);
    Split8(b, c);
    Split8(a, c);
    ByteOrder(Upper8(a), Upper8(b), Upper8(c));
    ByteOrder(Lower8(a), Lower8(b), Lower8(c));
  }

  lemma Order24(a: bv32, b: bv32, c: bv32)
    requires a < 0x1000000 && b < 0x1000000 && c < 0x1000000
    requires !Less(a, b) && !Less(b, c)
    ensures !Less(a, c)
  {
    hide *;
    Split16(a, b);
    Split16(b, c);
    Split16(a, c);
    ByteOrder(Upper16(a), Upper16(b), Upper16(c));
    if !Less(Lower16(a), Lower16(b)) && !Less(Lower16(b), Lower16(c)) {
      Order16(Lower16(a), Lower16(b), Lower16(c));
    }
  }

  lemma Order32(a: bv32, b: bv32, c: bv32)
    requires !Less(a, b) && !Less(b, c)
    ensures !Less(a, c)
  {
    hide *;
    Split24(a, b);
    Split24(b, c);
    Split24(a, c);
    ByteOrder(Upper24(a), Upper24(b), Upper24(c));
    if !Less(Lower24(a), Lower24(b)) && !Less(Lower24(b), Lower24(c)) {
      Order24(Lower24(a), Lower24(b), Lower24(c));
    }
  }

  lemma Asymmetric(a: bv32, b: bv32)
    ensures Less(a, b) ==> !Less(b, a)
  {
  }
}
