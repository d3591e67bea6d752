/** What the text of a token looks like, and that the scanners accept exactly such texts. */
module JsmnText {
  import opened Jsmn

  predicate Plain(c: char) {
    c != '\0' && c != '\"' && c != '\\'
  }

  predicate AllHex(s: string) {
    forall k | 0 <= k < |s| :: HexDigit(s[k])
  }

  /** What may stand between the quotes. */
  predicate StringBody(s: string) {
    || s == []
    || (Plain(s[0]) && StringBody(s[1..]))
    || (s[0] == '\\' && |s| >= 2 && SimpleEscape(s[1]) && StringBody(s[2..]))
    || (s[0] == '\\' && |s| >= 6 && s[1] == 'u' && AllHex(s[2..6]) && StringBody(s[6..]))
  }

  predicate PrimitiveBody(s: string) {
    forall k | 0 <= k < |s| :: Printable(s[k]) && !EndsPrimitive(s[k])
  }

  lemma {:induction false} HexScanIs(js: string, p: nat, n: nat)
    requires |js| > 0 && js[|js| - 1] == '\0' && p < |js|
    ensures var r := HexScan(js, p, n);
      && (r.Found? && js[r.at] != '\0' ==> r.at == p + n)
      && (p + n < |js| ==> (r == Found(p + n) <==> AllHex(js[p..p + n])))
    decreases n
  {
    if n == 0 {
    } else if js[p] == '\0' {
      assert p + n < |js| ==> js[p..p + n][0] == '\0';
    } else if !HexDigit(js[p]) {
      assert p + n < |js| ==> js[p..p + n][0] == js[p];
    } else {
      HexScanIs(js, p + 1, n - 1);
      if p + n < |js| {
        assert js[p..p + n] == [js[p]] + js[p + 1..p + n];
        assert js[p + 1..p + n] == js[p..p + n][1..];
      }
    }
  }

  lemma Drop(js: string, p: nat, d: nat, q: nat)
    requires p + d <= q <= |js|
    ensures js[p..q][d..] == js[p + d..q]
  {
  }

  lemma SliceWithin(js: string, p: nat, a: nat, b: nat, q: nat)
    requires a <= b && p + b <= q <= |js|
    ensures js[p..q][a..b] == js[p + a..p + b]
  {
    assert forall k | 0 <= k < b - a :: js[p..q][a..b][k] == js[p..q][a + k] == js[p + a..p + b][k];
  }

  /** The scan ends at q exactly when q is a quote after a legal string body. */
  lemma {:induction false} StringScanIs(js: string, len: nat, p: nat, q: nat)
    requires Terminated(js, len)
    ensures StringScan(js, len, p) == Found(q) <==> p <= q < len && js[q] == '\"' && StringBody(js[p..q])
    decreases |js| - p
  {
    StringBounds(js, len, p);
    if p < len && js[p] != '\0' && p < q < len {
      var s := js[p..q];
      assert s[0] == js[p];
      if Plain(js[p]) {
        StringScanIs(js, len, p + 1, q);
        Drop(js, p, 1, q);
      } else if js[p] == '\\' {
        EscapeScanIs(js, len, p, q);
      }
    }
  }

  lemma {:induction false} EscapeScanIs(js: string, len: nat, p: nat, q: nat)
    requires Terminated(js, len) && p < q < len && js[p] == '\\'
    ensures StringScan(js, len, p) == Found(q) <==> js[q] == '\"' && StringBody(js[p..q])
    decreases |js| - p, 0
  {
    var s := js[p..q];
    if SimpleEscape(js[p + 1]) {
      StringScanIs(js, len, p + 2, q);
      if p + 2 <= q {
        Drop(js, p, 2, q);
      }
    } else if js[p + 1] == 'u' {
      HexScanIs(js, p + 2, 4);
      var h := HexScan(js, p + 2, 4);
      if h.Found? {
        StringScanIs(js, len, h.at, q);
      }
      if p + 6 <= q {
        Drop(js, p, 6, q);
        SliceWithin(js, p, 2, 6, q);
      }
    }
  }

  /** The scan ends at q exactly when q is a delimiter after printable characters that are none. */
  lemma {:induction false} PrimitiveScanIs(js: string, len: nat, p: nat, q: nat)
    requires len <= |js|
    ensures PrimitiveScan(js, len, p) == Found(q) <==> p <= q < len && EndsPrimitive(js[q]) && PrimitiveBody(js[p..q])
    decreases len - p
  {
    PrimitiveBounds(js, len, p);
    if p < q < len {
      var s := js[p..q];
      PrimitiveScanIs(js, len, p + 1, q);
      Drop(js, p, 1, q);
      assert s == [js[p]] + s[1..];
      PrimitiveBodyNext(js[p], s[1..]);
    } else if p == q < len {
      PrimitiveBounds(js, len, p + 1);
      assert js[p..q] == [];
    }
  }

  lemma PrimitiveBodyNext(c: char, s: string)
    ensures PrimitiveBody([c] + s) <==> Printable(c) && !EndsPrimitive(c) && PrimitiveBody(s)
  {
    assert ([c] + s)[0] == c;
    assert forall k | 0 <= k < |s| :: ([c] + s)[k + 1] == s[k];
  }

  // ---- Tokens and their text ----

  /** A token's span is delimited in the text as its kind demands; a token still open has no end yet. */
  predicate Delimited(js: string, t: Token) {
    match t.kind
    case Object => Bracketed(js, t, '{', '}')
    case Array => Bracketed(js, t, '[', ']')
    case String =>
      && 1 <= t.start <= t.end < |js| && js[t.start - 1] == '\"' == js[t.end]
      && StringBody(js[t.start..t.end])
    case Primitive =>
      && 0 <= t.start < t.end < |js| && StartsPrimitive(js[t.start]) && EndsPrimitive(js[t.end])
      && PrimitiveBody(js[t.start..t.end])
  }

  predicate Bracketed(js: string, t: Token, left: char, right: char) {
    && 0 <= t.start < |js| && js[t.start] == left
    && (t.end == -1 || (t.start + 1 < t.end <= |js| && js[t.end - 1] == right))
  }

  lemma StringDelimited(js: string, len: nat, pos: nat, q: nat, parent: int)
    requires Terminated(js, len) && pos < len && js[pos] == '\"' && StringScan(js, len, pos + 1) == Found(q)
    ensures Delimited(js, Token(String, 0, pos + 1, q, parent))
  {
    StringScanIs(js, len, pos + 1, q);
  }

  lemma PrimitiveDelimited(js: string, len: nat, pos: nat, q: nat, parent: int)
    requires Terminated(js, len) && pos < len && StartsPrimitive(js[pos]) && PrimitiveScan(js, len, pos) == Found(q)
    ensures Delimited(js, Token(Primitive, 0, pos, q, parent))
  {
    PrimitiveScanIs(js, len, pos, q);
    ScanBounds(js, len, pos);
  }
}
