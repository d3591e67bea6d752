/** The parser's loops: strings decoded into a buffer measured beforehand, chains of children appended to. */
module CjsonScan {
  import opened Cjson
  import opened CjsonParse
  import opened Unicode
  import opened CjsonSteps
  import opened CjsonDecode

  // ---- Strings ----

  method MeasureString(s: string, start: nat) returns (len: nat)
    requires MeasureEnd(s, start) < |s|
    ensures len == Measure(s, start)
  {
    var ptr := start;
    len := 0;
    while ptr < |s| && s[ptr] != '\"' && s[ptr] != '\0'
      invariant start <= ptr && len + Measure(s, ptr) == Measure(s, start)
      decreases |s| - ptr
    {
      len := len + 1;
      if s[ptr] == '\\' {
        ptr := ptr + 1;
      }
      ptr := ptr + 1;
    }
  }

  /** The number without its last `k` groups of six bits. */
  function LeadingBits(c: nat, k: nat): nat {
    if k == 0 then c else LeadingBits(c, k - 1) / 0x40
  }

  function Utf8Bytes(c: nat): nat {
    if c < 0x80 then 1 else if c < 0x800 then 2 else if c < 0x10000 then 3 else 4
  }

  /** firstByteMark. */
  function FirstByteMark(len: nat): nat {
    if len == 2 then 0xC0 else if len == 3 then 0xE0 else if len == 4 then 0xF0 else 0
  }

  lemma Utf8At(c: nat)
    requires c < 0x110000
    ensures var n := Utf8Bytes(c);
      && |Utf8(c)| == n && FirstByteMark(n) + LeadingBits(c, n - 1) < 256
      && Utf8(c)[0] == Byte(FirstByteMark(n) + LeadingBits(c, n - 1))
      && forall j | 0 < j < n :: Utf8(c)[j] == Byte(0x80 + LeadingBits(c, n - 1 - j) % 0x40)
  {
    assert LeadingBits(c, 0) == c && LeadingBits(c, 1) == c / 0x40 && LeadingBits(c, 2) == c / 0x40 / 0x40;
    assert LeadingBits(c, 3) == LeadingBits(c, 2) / 0x40;
  }

  /** The bytes of a code point, last byte first: the fall-through of the source's switch. */
  method PutUtf8(out: array<char>, p: nat, code: nat) returns (q: nat)
    requires code < 0x110000 && p + |Utf8(code)| <= out.Length
    modifies out
    ensures q == p + |Utf8(code)| && out[..q] == old(out[..p]) + Utf8(code)
  {
    hide Utf8, LeadingBits;
    Utf8At(code);
    var uc := code;
    var len := Utf8Bytes(uc);
    q := p + len;
    LeadingNone(code);
    while q > p + 1
      invariant p + 1 <= q <= p + len && uc == LeadingBits(code, p + len - q)
      invariant forall j | 0 <= j < p :: out[j] == old(out[j])
      invariant forall j | q <= j < p + len :: out[j] == Utf8(code)[j - p]
    {
      q := q - 1;
      out[q] := Byte(0x80 + uc % 0x40);
      LeadingNext(code, p + len - q);
      uc := uc / 0x40;
    }
    q := q - 1;
    out[q] := Byte(FirstByteMark(len) + uc);
    q := q + len;
    assert out[..p] == old(out[..p]) && out[p..q] == Utf8(code);
    assert out[..q] == out[..p] + out[p..q];
  }

  lemma LeadingNone(c: nat)
    ensures LeadingBits(c, 0) == c
  {
  }

  lemma LeadingNext(c: nat, k: nat)
    requires k > 0
    ensures LeadingBits(c, k) == LeadingBits(c, k - 1) / 0x40
  {
  }

  /** A \u escape with its `u` at `p`: its bytes are written at `q`. */
  method ParseUnicode(s: string, p: nat, out: array<char>, q0: nat) returns (q: nat, next: nat)
    requires q0 + |UnicodeAt(s, p).0| <= out.Length
    modifies out
    ensures q == q0 + |UnicodeAt(s, p).0| && out[..q] == old(out[..q0]) + UnicodeAt(s, p).0
    ensures next == UnicodeAt(s, p).1
  {
    hide Utf8, Hex4At;
    q := q0;
    var uc := Hex4At(s, p + 1);
    var ptr := p + 4;
    if 0xDC00 <= uc <= 0xDFFF || uc == 0 {
      return q, ptr + 1;
    }
    if 0xD800 <= uc <= 0xDBFF {
      if CharAt(s, ptr + 1) != '\\' || CharAt(s, ptr + 2) != 'u' {
        return q, ptr + 1;
      }
      var uc2 := Hex4At(s, ptr + 3);
      ptr := ptr + 6;
      if uc2 < 0xDC00 || uc2 > 0xDFFF {
        return q, ptr + 1;
      }
      uc := 0x10000 + (uc % 0x400) * 0x400 + uc2 % 0x400;
    }
    q := PutUtf8(out, q, uc);
    return q, ptr + 1;
  }

  /** One character or escape of the body, decoded into the buffer. */
  method ParseUnit(s: string, p: nat, out: array<char>, q0: nat, ghost e: nat) returns (q: nat, next: nat)
    requires Within(s, p, e) && e < |s| && !Stops(s, p)
    requires q0 + |BodyAt(s, p).0| <= out.Length
    modifies out
    ensures p < next && Within(s, next, e) && q0 <= q && q + |BodyAt(s, next).0| <= out.Length
    ensures out[..q] + BodyAt(s, next).0 == old(out[..q0]) + BodyAt(s, p).0
    ensures BodyAt(s, next).1 == BodyAt(s, p).1 && q + |BodyAt(s, next).0| == q0 + |BodyAt(s, p).0|
  {
    hide *;
    UnitInside(s, p, e);
    BodyNext(s, p);
    UnitIs(s, p);
    CharAtInside(s, p);
    CharAtInside(s, p + 1);
    if s[p] != '\\' {
      out[q0] := s[p];
      Placed(out, old(out[..q0]), q0 + 1, [s[p]], BodyAt(s, p + 1).0);
      return q0 + 1, p + 1;
    }
    if s[p + 1] == 'u' {
      q, next := ParseUnicode(s, p + 1, out, q0);
      Placed(out, old(out[..q0]), q, UnicodeAt(s, p + 1).0, BodyAt(s, next).0);
      return;
    }
    out[q0] := Unescape(s[p + 1]);
    Placed(out, old(out[..q0]), q0 + 1, [Unescape(s[p + 1])], BodyAt(s, p + 2).0);
    return q0 + 1, p + 2;
  }

  lemma CharAtInside(s: string, p: nat)
    requires p < |s|
    ensures CharAt(s, p) == s[p]
  {
  }

  lemma Placed(out: array<char>, before: string, q: nat, piece: string, rest: string)
    requires |before| + |piece| == q <= out.Length && out[..|before|] == before && out[|before|..q] == piece
    ensures out[..q] + rest == before + (piece + rest)
  {
    assert out[..q] == out[..|before|] + out[|before|..q];
  }

  /** parse_string: the decoded bytes fit in the buffer measured for them. */
  method ParseString(s: string, i: nat) returns (r: Result<string>)
    requires CharAt(s, i) == '\"' ==> Decodable(s, i + 1)
    ensures r == StringAt(s, i)
  {
    hide BodyAt, Within, Measure, MeasureEnd;
    if CharAt(s, i) != '\"' {
      return Malformed;
    }
    var len := MeasureString(s, i + 1);
    BodyFits(s, i + 1);
    ghost var e := MeasureEnd(s, i + 1);
    var out := new char[len + 1];
    var ptr, ptr2 := i + 1, 0;
    assert out[..0] + BodyAt(s, i + 1).0 == BodyAt(s, i + 1).0;
    WithinInside(s, ptr, e);
    while s[ptr] != '\"' && s[ptr] != '\0'
      invariant i < ptr < |s| && Within(s, ptr, e) && ptr2 + |BodyAt(s, ptr).0| <= len
      invariant out[..ptr2] + BodyAt(s, ptr).0 == BodyAt(s, i + 1).0 && BodyAt(s, ptr).1 == BodyAt(s, i + 1).1
      decreases |s| - ptr
    {
      ptr2, ptr := ParseUnit(s, ptr, out, ptr2, e);
      WithinInside(s, ptr, e);
    }
    BodyEnd(s, ptr);
    CharAtInside(s, ptr);
    assert out[..ptr2] + "" == out[..ptr2];
    ghost var text := out[..ptr2];
    out[ptr2] := '\0';
    assert out[..ptr2] == text;
    if s[ptr] == '\"' {
      ptr := ptr + 1;
    }
    return Read(out[..ptr2], ptr);
  }

  lemma WithinInside(s: string, p: nat, e: nat)
    requires Within(s, p, e) && e < |s|
    ensures p < |s|
  {
  }

  /** A character or escape that does not step over e. */
  lemma UnitInside(s: string, p: nat, e: nat)
    requires Within(s, p, e) && e < |s| && !Stops(s, p)
    ensures p + 1 < |s| && Next(s, p) <= e && Within(s, Next(s, p), e) && CharAt(s, p) != '\"' && CharAt(s, p) != '\0'
  {
  }

  lemma UnitIs(s: string, p: nat)
    ensures Next(s, p) == if CharAt(s, p) != '\\' then p + 1
      else if CharAt(s, p + 1) == 'u' then UnicodeAt(s, p + 1).1 else p + 2
    ensures UnitAt(s, p) == if CharAt(s, p) != '\\' then [CharAt(s, p)]
      else if CharAt(s, p + 1) == 'u' then UnicodeAt(s, p + 1).0 else [Unescape(CharAt(s, p + 1))]
  {
  }

  lemma BodyEnd(s: string, p: nat)
    requires p < |s| && (s[p] == '\"' || s[p] == '\0')
    ensures BodyAt(s, p) == ("", p)
  {
  }

  // ---- Numbers ----

  /** parse_number, on integers. */
  method ParseNumber(s: string, i: nat) returns (r: Result<Json>)
    ensures r == NumberAt(s, i)
  {
    var num := i;
    var negative := CharAt(s, num) == '-';
    if negative {
      num := num + 1;
    }
    if CharAt(s, num) == '0' {
      num := num + 1;
    }
    var n := 0;
    if '1' <= CharAt(s, num) <= '9' {
      ghost var start := num;
      while num < |s| && IsDigit(s[num])
        invariant 0 <= n && start <= num && DigitsAt(s, num, n) == DigitsAt(s, start, 0)
      {
        n := n * 10 + (s[num] as int - '0' as int);
        num := num + 1;
      }
    }
    if (CharAt(s, num) == '.' && IsDigit(CharAt(s, num + 1))) || CharAt(s, num) == 'e' || CharAt(s, num) == 'E' {
      return Malformed;
    }
    return Read(Number(if negative then -n else n), num);
  }

  // ---- Values ----

  /** Every string met on the way through the value at i is decodable. */
  predicate ValueSafe(s: string, i: nat)
    decreases |s| - i, 2
  {
    if StartsWith(s, i, "null") || StartsWith(s, i, "false") || StartsWith(s, i, "true") then true
    else if CharAt(s, i) == '\"' then Decodable(s, i + 1)
    else if CharAt(s, i) == '[' then CharAt(s, Skip(s, i + 1)) == ']' || ItemsSafe(s, Skip(s, i + 1))
    else if CharAt(s, i) == '{' then CharAt(s, Skip(s, i + 1)) == '}' || MembersSafe(s, Skip(s, i + 1))
    else true
  }

  predicate ItemsSafe(s: string, i: nat)
    decreases |s| - i, 3
  {
    && ValueSafe(s, Skip(s, i))
    && match ValueAt(s, Skip(s, i))
       case Malformed => true
       case Read(_, k) => CharAt(s, Skip(s, k)) == ',' ==> ItemsSafe(s, Skip(s, k) + 1)
  }

  predicate MemberSafe(s: string, i: nat)
    decreases |s| - i, 3
  {
    && (CharAt(s, Skip(s, i)) == '\"' ==> Decodable(s, Skip(s, i) + 1))
    && match StringAt(s, Skip(s, i))
       case Malformed => true
       case Read(_, k) => CharAt(s, Skip(s, k)) == ':' ==> ValueSafe(s, Skip(s, Skip(s, k) + 1))
  }

  predicate MembersSafe(s: string, i: nat)
    decreases |s| - i, 4
  {
    && MemberSafe(s, i)
    && match MemberAt(s, i)
       case Malformed => true
       case Read(_, k) => CharAt(s, Skip(s, k)) == ',' ==> MembersSafe(s, Skip(s, k) + 1)
  }

  /** Every quote of the text begins a decodable string. */
  predicate Complete(s: string) {
    forall p | 0 <= p < |s| && s[p] == '\"' :: Decodable(s, p + 1)
  }

  lemma CompleteAt(s: string, p: nat)
    requires Complete(s) && CharAt(s, p) == '\"'
    ensures Decodable(s, p + 1)
  {
  }

  lemma {:induction false} CompleteIsSafe(s: string, i: nat)
    requires Complete(s)
    ensures ValueSafe(s, i)
    decreases |s| - i, 2
  {
    hide Complete, Decodable, ValueAt, MemberAt;
    if CharAt(s, i) == '\"' {
      CompleteAt(s, i);
    } else if CharAt(s, i) == '[' {
      ItemsAreSafe(s, Skip(s, i + 1));
    } else if CharAt(s, i) == '{' {
      MembersAreSafe(s, Skip(s, i + 1));
    }
  }

  lemma {:induction false} ItemsAreSafe(s: string, i: nat)
    requires Complete(s)
    ensures ItemsSafe(s, i)
    decreases |s| - i, 3
  {
    hide Complete, Decodable, ValueAt, ValueSafe;
    CompleteIsSafe(s, Skip(s, i));
    match ValueAt(s, Skip(s, i))
    case Malformed =>
    case Read(_, k) =>
      if CharAt(s, Skip(s, k)) == ',' {
        ItemsAreSafe(s, Skip(s, k) + 1);
      }
  }

  lemma {:induction false} MembersAreSafe(s: string, i: nat)
    requires Complete(s)
    ensures MembersSafe(s, i)
    decreases |s| - i, 4
  {
    hide Complete, Decodable, ValueAt, MemberAt, ValueSafe, StringAt;
    var j := Skip(s, i);
    if CharAt(s, j) == '\"' {
      CompleteAt(s, j);
    }
    match StringAt(s, j) {
      case Malformed =>
      case Read(_, k) =>
        if CharAt(s, Skip(s, k)) == ':' {
          CompleteIsSafe(s, Skip(s, Skip(s, k) + 1));
        }
    }
    match MemberAt(s, i)
    case Malformed =>
    case Read(_, k) =>
      if CharAt(s, Skip(s, k)) == ',' {
        MembersAreSafe(s, Skip(s, k) + 1);
      }
  }

  /** The children read so far, in front of the rest. */
  function Prepend(done: seq<(string, Json)>, rest: Chain): Chain
    decreases |done|
  {
    if done == [] then rest
    else
      var (name, item) := done[|done| - 1];
      Prepend(done[..|done| - 1], Link(name, item, rest))
  }

  function Extend(done: seq<(string, Json)>, r: Result<Chain>): Result<Chain> {
    match r
    case Malformed => Malformed
    case Read(c, e) => Read(Prepend(done, c), e)
  }

  lemma PrependNext(done: seq<(string, Json)>, name: string, item: Json, rest: Chain)
    ensures Prepend(done + [(name, item)], rest) == Prepend(done, Link(name, item, rest))
  {
    assert (done + [(name, item)])[..|done|] == done;
  }

  /** parse_value. */
  method ParseValue(s: string, i: nat) returns (r: Result<Json>)
    requires ValueSafe(s, i)
    ensures r == ValueAt(s, i)
    decreases |s| - i, 2
  {
    if StartsWith(s, i, "null") {
      return Read(Null, i + 4);
    }
    if StartsWith(s, i, "false") {
      return Read(False, i + 5);
    }
    if StartsWith(s, i, "true") {
      return Read(True, i + 4);
    }
    if CharAt(s, i) == '\"' {
      var t := ParseString(s, i);
      return match t case Malformed => Malformed case Read(str, j) => Read(Str(str), j);
    }
    if CharAt(s, i) == '-' || IsDigit(CharAt(s, i)) {
      r := ParseNumber(s, i);
      return;
    }
    if CharAt(s, i) == '[' {
      r := ParseArray(s, i);
      return;
    }
    if CharAt(s, i) == '{' {
      r := ParseObject(s, i);
      return;
    }
    return Malformed;
  }

  /** parse_array: children are appended to the chain one by one. */
  method ParseArray(s: string, i: nat) returns (r: Result<Json>)
    requires ValueSafe(s, i) && CharAt(s, i) == '['
    ensures r == ValueAt(s, i)
    decreases |s| - i, 1
  {
    hide ValueAt, ItemsAt, Skip, StringAt, Prepend, ValueSafe, ItemsSafe;
    ArrayAt(s, i);
    ArraySafe(s, i);
    var value := Skip(s, i + 1);
    if CharAt(s, value) == ']' {
      return Read(Array(Nil), value + 1);
    }
    ghost var first := value;
    var done: seq<(string, Json)> := [];
    NothingDone(ItemsAt(s, first));
    ItemSafe(s, value);
    var item := ParseValue(s, Skip(s, value));
    ItemsStep(s, value);
    if item.Malformed? {
      return Malformed;
    }
    value := Skip(s, item.next);
    while CharAt(s, value) == ','
      invariant i < value && item.Read? && (CharAt(s, value) == ',' ==> ItemsSafe(s, value + 1))
      invariant ItemsAt(s, first) == Extend(done, ItemsAfter(s, item.value, value))
      decreases |s| - value
    {
      ItemSafe(s, value + 1);
      var next := ParseValue(s, Skip(s, value + 1));
      ItemsStep(s, value + 1);
      ExtendNext(done, "", item.value, ItemsAt(s, value + 1));
      done := done + [("", item.value)];
      if next.Malformed? {
        return Malformed;
      }
      item := next;
      value := Skip(s, item.next);
    }
    if CharAt(s, value) == ']' {
      return Read(Array(Prepend(done, Link("", item.value, Nil))), value + 1);
    }
    return Malformed;
  }

  lemma ArraySafe(s: string, i: nat)
    requires ValueSafe(s, i) && CharAt(s, i) == '['
    ensures CharAt(s, Skip(s, i + 1)) == ']' || ItemsSafe(s, Skip(s, i + 1))
  {
    NoWordsAt(s, i);
  }

  lemma NoWordsAt(s: string, i: nat)
    requires CharAt(s, i) == '[' || CharAt(s, i) == '{'
    ensures !StartsWith(s, i, "null") && !StartsWith(s, i, "false") && !StartsWith(s, i, "true")
  {
    if StartsWith(s, i, "null") {
      First(s, i, "null");
    }
    if StartsWith(s, i, "false") {
      First(s, i, "false");
    }
    if StartsWith(s, i, "true") {
      First(s, i, "true");
    }
  }

  lemma ItemSafe(s: string, i: nat)
    requires ItemsSafe(s, i)
    ensures ValueSafe(s, Skip(s, i))
    ensures var r := ValueAt(s, Skip(s, i));
      r.Read? && CharAt(s, Skip(s, r.next)) == ',' ==> ItemsSafe(s, Skip(s, r.next) + 1)
  {
    hide ValueAt, ValueSafe;
  }

  /** What ItemsAt goes on with once an item is read and white space skipped. */
  function ItemsAfter(s: string, v: Json, j: nat): Result<Chain> {
    if CharAt(s, j) == ',' then Extend([("", v)], ItemsAt(s, j + 1))
    else if CharAt(s, j) == ']' then Read(Link("", v, Nil), j + 1)
    else Malformed
  }

  lemma ItemsStep(s: string, i: nat)
    ensures ItemsAt(s, i) ==
      match ValueAt(s, Skip(s, i)) case Malformed => Malformed case Read(v, k) => ItemsAfter(s, v, Skip(s, k))
  {
    hide ValueAt, Skip;
    match ValueAt(s, Skip(s, i))
    case Malformed =>
    case Read(v, k) =>
      if CharAt(s, Skip(s, k)) == ',' {
        ExtendOne("", v, ItemsAt(s, Skip(s, k) + 1));
      }
  }

  lemma ExtendOne(name: string, v: Json, r: Result<Chain>)
    ensures Extend([(name, v)], r) == match r case Malformed => Malformed case Read(c, e) => Read(Link(name, v, c), e)
  {
    if r.Read? {
      PrependNext([], name, v, r.value);
      assert [] + [(name, v)] == [(name, v)];
    }
  }

  lemma ExtendNext(done: seq<(string, Json)>, name: string, v: Json, r: Result<Chain>)
    ensures Extend(done, Extend([(name, v)], r)) == Extend(done + [(name, v)], r)
  {
    ExtendOne(name, v, r);
    if r.Read? {
      PrependNext(done, name, v, r.value);
    }
  }

  lemma NothingDone(r: Result<Chain>)
    ensures Extend([], r) == r
  {
  }

  method ParseObject(s: string, i: nat) returns (r: Result<Json>)
    requires ValueSafe(s, i) && CharAt(s, i) == '{'
    ensures r == ValueAt(s, i)
    decreases |s| - i, 1
  {
    hide ValueAt, MembersAt, MemberAt, Skip, StringAt, Prepend, ValueSafe, MemberSafe, MembersSafe;
    ObjectAt(s, i);
    ObjectSafe(s, i);
    var value := Skip(s, i + 1);
    if CharAt(s, value) == '}' {
      return Read(Object(Nil), value + 1);
    }
    ghost var first := value;
    var done: seq<(string, Json)> := [];
    NothingDone(MembersAt(s, first));
    NextMemberSafe(s, value);
    var member := ParseMember(s, value);
    MembersStep(s, value);
    if member.Malformed? {
      return Malformed;
    }
    value := Skip(s, member.next);
    while CharAt(s, value) == ','
      invariant i < value && member.Read? && (CharAt(s, value) == ',' ==> MembersSafe(s, value + 1))
      invariant MembersAt(s, first) == Extend(done, MembersAfter(s, member.value, value))
      decreases |s| - value
    {
      NextMemberSafe(s, value + 1);
      var next := ParseMember(s, value + 1);
      MembersStep(s, value + 1);
      ExtendNext(done, member.value.0, member.value.1, MembersAt(s, value + 1));
      done := done + [member.value];
      if next.Malformed? {
        return Malformed;
      }
      member := next;
      value := Skip(s, member.next);
    }
    if CharAt(s, value) == '}' {
      return Read(Object(Prepend(done, Link(member.value.0, member.value.1, Nil))), value + 1);
    }
    return Malformed;
  }

  lemma ObjectSafe(s: string, i: nat)
    requires ValueSafe(s, i) && CharAt(s, i) == '{'
    ensures CharAt(s, Skip(s, i + 1)) == '}' || MembersSafe(s, Skip(s, i + 1))
  {
    NoWordsAt(s, i);
  }

  lemma NextMemberSafe(s: string, i: nat)
    requires MembersSafe(s, i)
    ensures MemberSafe(s, i)
    ensures var r := MemberAt(s, i);
      r.Read? && CharAt(s, Skip(s, r.next)) == ',' ==> MembersSafe(s, Skip(s, r.next) + 1)
  {
    hide MemberAt, MemberSafe;
  }

  /** A name, a colon and a value, from `i` on. */
  function MemberAt(s: string, i: nat): (r: Result<(string, Json)>)
    ensures r.Read? ==> i < r.next
  {
    match StringAt(s, Skip(s, i))
    case Malformed => Malformed
    case Read(name, k) =>
      var j := Skip(s, k);
      if CharAt(s, j) != ':' then Malformed
      else match ValueAt(s, Skip(s, j + 1)) case Malformed => Malformed case Read(v, m) => Read((name, v), m)
  }

  function MembersAfter(s: string, m: (string, Json), j: nat): Result<Chain> {
    if CharAt(s, j) == ',' then Extend([m], MembersAt(s, j + 1))
    else if CharAt(s, j) == '}' then Read(Link(m.0, m.1, Nil), j + 1)
    else Malformed
  }

  lemma MembersStep(s: string, i: nat)
    ensures MembersAt(s, i) ==
      match MemberAt(s, i) case Malformed => Malformed case Read(m, k) => MembersAfter(s, m, Skip(s, k))
  {
    hide ValueAt, Skip, StringAt;
    match MemberAt(s, i)
    case Malformed =>
    case Read(m, k) =>
      if CharAt(s, Skip(s, k)) == ',' {
        ExtendOne(m.0, m.1, MembersAt(s, Skip(s, k) + 1));
      }
  }

  method ParseMember(s: string, i: nat) returns (r: Result<(string, Json)>)
    requires MemberSafe(s, i)
    ensures r == MemberAt(s, i)
    decreases |s| - i, 3
  {
    hide ValueAt, ValueSafe, Decodable;
    var value := Skip(s, i);
    var name := ParseString(s, value);
    if name.Malformed? {
      return Malformed;
    }
    value := Skip(s, name.next);
    if CharAt(s, value) != ':' {
      return Malformed;
    }
    var item := ParseValue(s, Skip(s, value + 1));
    return match item case Malformed => Malformed case Read(v, m) => Read((name.value, v), m);
  }
}
