/** Code points as octets: UTF-8 (section 3 of RFC 3629). */
module Unicode {

  function Byte(b: nat): char
    requires b < 256
  {
    b as char
  }

  /** The bytes cJSON.c writes for a code point. */
  function Utf8(c: nat): (s: string)
    requires c < 0x110000
  {
    var d := c / 0x40;
    var e := d / 0x40;
    if c < 0x80 then [Byte(c)]
    else if c < 0x800 then [Byte(0xC0 + d), Byte(0x80 + c % 0x40)]
    else if c < 0x10000 then [Byte(0xE0 + e), Byte(0x80 + d % 0x40), Byte(0x80 + c % 0x40)]
    else [Byte(0xF0 + e / 0x40), Byte(0x80 + e % 0x40), Byte(0x80 + d % 0x40), Byte(0x80 + c % 0x40)]
  }

  // ---- Reading octets ----

  /** 10xxxxxx. */
  predicate Continues(c: char) {
    c as int / 0x40 == 2
  }

  function Tail(c: char): nat {
    c as int % 0x40
  }

  /** The first octet's number of leading ones is the length of the sequence, and no shorter one would do. */
  function Decode(s: string): int {
    if |s| == 1 && s[0] as int < 0x80 then s[0] as int
    else if |s| == 2 && s[0] as int / 0x20 == 6 && Continues(s[1]) then
      AtLeast(0x80, s[0] as int % 0x20 * 0x40 + Tail(s[1]))
    else if |s| == 3 && s[0] as int / 0x10 == 14 && Continues(s[1]) && Continues(s[2]) then
      AtLeast(0x800, (s[0] as int % 0x10 * 0x40 + Tail(s[1])) * 0x40 + Tail(s[2]))
    else if |s| == 4 && s[0] as int / 8 == 30 && Continues(s[1]) && Continues(s[2]) && Continues(s[3]) then
      AtLeast(0x10000, ((s[0] as int % 8 * 0x40 + Tail(s[1])) * 0x40 + Tail(s[2])) * 0x40 + Tail(s[3]))
    else -1
  }

  function AtLeast(least: nat, c: nat): int {
    if c >= least then c else -1
  }

  lemma ContinuingByte(b: nat, c: char)
    requires b < 0x40
    ensures c == Byte(0x80 + b) <==> Continues(c) && Tail(c) == b
  {
  }

  lemma LeadingByte(mark: nat, size: nat, b: nat, c: char)
    requires b < size && mark + size <= 0x100
    requires (mark == 0xC0 && size == 0x20) || (mark == 0xE0 && size == 0x10) || (mark == 0xF0 && size == 8)
    ensures c == Byte(mark + b) <==> c as int / size == mark / size && c as int % size == b
  {
  }

  lemma Digits64(a: nat, b: nat, c: nat)
    requires b < 0x40
    ensures a * 0x40 + b == c <==> a == c / 0x40 && b == c % 0x40
  {
  }

  lemma Two(s: string, c: nat)
    requires |s| == 2 && 0x80 <= c < 0x110000
    ensures Decode(s) == c <==> s == Utf8(c)
  {
    hide Byte, Continues, Tail;
    var a, x := s[0], s[1];
    TailBound(x);
    if c < 0x800 {
      LeadingByte(0xC0, 0x20, c / 0x40, a);
      ContinuingByte(c % 0x40, x);
      Digits64(a as int % 0x20, Tail(x), c);
    }
  }

  lemma TailBound(c: char)
    ensures Tail(c) < 0x40
  {
  }

  lemma Three(s: string, c: nat)
    requires |s| == 3 && 0x80 <= c < 0x110000
    ensures Decode(s) == c <==> s == Utf8(c)
  {
    hide Byte, Continues, Tail;
    var a, x, y := s[0], s[1], s[2];
    TailBound(x);
    TailBound(y);
    if 0x800 <= c < 0x10000 {
      LeadingByte(0xE0, 0x10, c / 0x40 / 0x40, a);
      ContinuingByte(c / 0x40 % 0x40, x);
      ContinuingByte(c % 0x40, y);
      Digits64(a as int % 0x10 * 0x40 + Tail(x), Tail(y), c);
      Digits64(a as int % 0x10, Tail(x), c / 0x40);
    }
  }

  lemma Four(s: string, c: nat)
    requires |s| == 4 && 0x80 <= c < 0x110000
    ensures Decode(s) == c <==> s == Utf8(c)
  {
    hide Byte, Continues, Tail;
    var a, x, y, z := s[0], s[1], s[2], s[3];
    TailBound(x);
    TailBound(y);
    TailBound(z);
    if 0x10000 <= c {
      LeadingByte(0xF0, 8, c / 0x40 / 0x40 / 0x40, a);
      ContinuingByte(c / 0x40 / 0x40 % 0x40, x);
      ContinuingByte(c / 0x40 % 0x40, y);
      ContinuingByte(c % 0x40, z);
      Digits64((a as int % 8 * 0x40 + Tail(x)) * 0x40 + Tail(y), Tail(z), c);
      Digits64(a as int % 8 * 0x40 + Tail(x), Tail(y), c / 0x40);
      Digits64(a as int % 8, Tail(x), c / 0x40 / 0x40);
    }
  }

  /** The bytes written for a code point are its UTF-8 form, and no others are. */
  lemma Utf8Exactly(s: string, c: nat)
    requires c < 0x110000
    ensures Decode(s) == c <==> s == Utf8(c)
  {
    if c < 0x80 || |s| <= 1 || |s| > 4 {
      if c < 0x80 && s == Utf8(c) {
        assert s == [Byte(c)];
      }
    } else if |s| == 2 {
      Two(s, c);
    } else if |s| == 3 {
      Three(s, c);
    } else {
      Four(s, c);
    }
  }
}
