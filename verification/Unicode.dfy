/** Conversion of UCS-2 names to UTF-8 within a budget of bytes. */
module Unicode {
  import opened Layout

  // ---------- what the conversion means ----------

  /** The bytes that encode one unit. */
  function Encode(w: u16): (b: seq<byte>)
    ensures 1 <= |b| <= 3
  {
    if w <= 0x7F then [w]
    else if w <= 0x7FF then [0xC0 + w / 0x40, 0x80 + w % 0x40]
    else [0xE0 + w / 0x1000, 0x80 + w / 0x40 % 0x40, 0x80 + w % 0x40]
  }

  function EncodeAll(p: seq<u16>): seq<byte> {
    if p == [] then [] else Encode(p[0]) + EncodeAll(p[1..])
  }

  /** The conversion of a NUL-terminated string with a budget. A unit whose encoding does not
      fit is passed over, at the price of one byte of the budget. */
  function Utf8(p: seq<u16>, budget: int): seq<byte> {
    if p == [] || p[0] == 0 || budget <= 0 then []
    else if |Encode(p[0])| > budget then Utf8(p[1..], budget - 1)
    else Encode(p[0]) + Utf8(p[1..], budget - |Encode(p[0])|)
  }

  /** The units that are encoded, and the number that are passed over. */
  function Kept(p: seq<u16>, budget: int): seq<u16> {
    if p == [] || p[0] == 0 || budget <= 0 then []
    else if |Encode(p[0])| > budget then Kept(p[1..], budget - 1)
    else [p[0]] + Kept(p[1..], budget - |Encode(p[0])|)
  }

  function Dropped(p: seq<u16>, budget: int): nat {
    if p == [] || p[0] == 0 || budget <= 0 then 0
    else if |Encode(p[0])| > budget then 1 + Dropped(p[1..], budget - 1)
    else Dropped(p[1..], budget - |Encode(p[0])|)
  }

  predicate NulFree(p: seq<u16>) {
    forall i :: 0 <= i < |p| ==> p[i] != 0
  }

  predicate Ascii(p: seq<u16>) {
    forall i :: 0 <= i < |p| ==> 0 < p[i] <= 0x7F
  }

  predicate Surrogate(w: u16) {
    0xD800 <= w <= 0xDFFF
  }

  predicate Continuation(b: byte) {
    0x80 <= b <= 0xBF
  }

  // The bits marked x of a sequence of two or three octets.
  function Bits2(x: byte, y: byte): int {
    (x as int - 0xC0) * 0x40 + (y as int - 0x80)
  }

  function Bits3(x: byte, y: byte, z: byte): int {
    (x as int - 0xE0) * 0x1000 + (y as int - 0x80) * 0x40 + (z as int - 0x80)
  }

  /** Section 3 of RFC 3629, for code points below 0x10000: `b` is the octet sequence of `w`.
      The number of octets is the one the table gives for the range of w, and the bits marked
      x, in order, are the bits of w. The surrogates have no encoding. */
  predicate RfcEncoding(w: u16, b: seq<byte>) {
    && !Surrogate(w)
    && match |b|
       case 1 => w <= 0x7F && b[0] == w
       case 2 => 0x80 <= w <= 0x7FF && 0xC0 <= b[0] <= 0xDF && Continuation(b[1])
                 && w == Bits2(b[0], b[1])
       case 3 => 0x800 <= w && 0xE0 <= b[0] <= 0xEF && Continuation(b[1]) && Continuation(b[2])
                 && w == Bits3(b[0], b[1], b[2])
       case _ => false
  }

  lemma LowBits(w: int, high: int, low: int)
    requires w == high * 0x40 + low && 0 <= low < 0x40
    ensures w / 0x40 == high && w % 0x40 == low
  {
  }

  /** The encoding of a unit is the RFC's, and the only one, if and only if the unit is not a
      surrogate. */
  lemma EncodeIsRfc(w: u16, b: seq<byte>)
    ensures RfcEncoding(w, b) <==> b == Encode(w) && !Surrogate(w)
  {
    if RfcEncoding(w, b) {
      if |b| == 2 {
        LowBits(w, b[0] - 0xC0, b[1] - 0x80);
      } else if |b| == 3 {
        LowBits(w, (b[0] as int - 0xE0) * 0x40 + (b[1] - 0x80), b[2] - 0x80);
        LowBits(w / 0x40, b[0] - 0xE0, b[1] - 0x80);
      }
    }
  }

  /** A reader of UTF-8 that accepts sequences of up to three bytes, shortest forms only. */
  function DecodeOne(b: seq<byte>): Option<(u16, nat)> {
    if b == [] then None
    else if b[0] <= 0x7F then Some((b[0], 1))
    else if 0xC2 <= b[0] <= 0xDF && |b| >= 2 && Continuation(b[1]) then
      Some((Bits2(b[0], b[1]), 2))
    else if 0xE0 <= b[0] <= 0xEF && |b| >= 3 && Continuation(b[1]) && Continuation(b[2])
            && (b[0] > 0xE0 || b[1] >= 0xA0) then
      Some((Bits3(b[0], b[1], b[2]), 3))
    else None
  }

  function Decode(b: seq<byte>): Option<seq<u16>> {
    if b == [] then Some([])
    else match DecodeOne(b)
      case None => None
      case Some((w, n)) =>
        if n == 0 || n > |b| then None
        else match Decode(b[n..])
          case None => None
          case Some(p) => Some([w] + p)
  }

  lemma {:induction false} DecodeEncodeAll(p: seq<u16>)
    ensures Decode(EncodeAll(p)) == Some(p)
  {
    if p != [] {
      var e, rest := Encode(p[0]), EncodeAll(p[1..]);
      assert DecodeOne(e + rest) == Some((p[0], |e|));
      assert (e + rest)[|e|..] == rest;
      DecodeEncodeAll(p[1..]);
      assert [p[0]] + p[1..] == p;
    }
  }

  lemma {:induction false} Utf8Fits(p: seq<u16>, budget: int)
    requires NulFree(p) && budget >= |EncodeAll(p)|
    ensures Utf8(p, budget) == EncodeAll(p)
  {
    if p != [] {
      Utf8Fits(p[1..], budget - |Encode(p[0])|);
    }
  }

  lemma {:induction false} EncodedLength(p: seq<u16>)
    ensures |p| <= |EncodeAll(p)| <= 3 * |p|
  {
    if p != [] {
      EncodedLength(p[1..]);
    }
  }

  /** What is converted decodes back to the string - exactly if the budget is large enough for
      all its encodings, for which three bytes a unit suffice. */
  lemma Utf8RoundTrip(p: seq<u16>, budget: nat)
    requires NulFree(p)
    ensures Decode(Utf8(p, budget)) == Some(p) <==> |EncodeAll(p)| <= budget
    ensures 3 * |p| <= budget ==> |EncodeAll(p)| <= budget
  {
    EncodedLength(p);
    DecodeEncodeAll(p);
    if |EncodeAll(p)| <= budget {
      Utf8Fits(p, budget);
    } else {
      Utf8Truncates(p, budget);
      DecodeEncodeAll(Kept(p, budget));
    }
  }

  ghost predicate Subsequence(q: seq<u16>, p: seq<u16>) {
    if q == [] then true
    else if p == [] then false
    else if q[0] == p[0] && Subsequence(q[1..], p[1..]) then true
    else Subsequence(q, p[1..])
  }

  /** For every string and budget the output is made of complete encodings of some of the
      units, in order; the bytes written and the units passed over stay within the budget. */
  lemma {:induction false} Utf8Truncates(p: seq<u16>, budget: int)
    ensures Utf8(p, budget) == EncodeAll(Kept(p, budget))
    ensures Subsequence(Kept(p, budget), p)
    ensures |Utf8(p, budget)| + Dropped(p, budget) <= if budget > 0 then budget else 0
    ensures |Kept(p, budget)| + Dropped(p, budget) <= |p|
  {
    if p != [] && p[0] != 0 && budget > 0 {
      if |Encode(p[0])| > budget {
        Utf8Truncates(p[1..], budget - 1);
      } else {
        Utf8Truncates(p[1..], budget - |Encode(p[0])|);
        assert ([p[0]] + Kept(p[1..], budget - |Encode(p[0])|))[1..] == Kept(p[1..], budget - |Encode(p[0])|);
      }
    }
  }

  /** An ASCII name is reproduced unit for byte with a budget of its own length. */
  lemma {:induction false} Utf8Ascii(p: seq<u16>, budget: int)
    requires Ascii(p) && budget >= |p|
    ensures Utf8(p, budget) == p
  {
    if p != [] {
      Utf8Ascii(p[1..], budget - 1);
    }
  }

  // Only the units before the first NUL matter.
  lemma {:induction false} Utf8Prefix(p: seq<u16>, rest: seq<u16>, budget: int)
    requires rest == [] || rest[0] == 0
    ensures Utf8(p + rest, budget) == Utf8(p, budget)
  {
    if p == [] {
      assert p + rest == rest;
    } else {
      assert (p + rest)[1..] == p[1..] + rest;
      Utf8Prefix(p[1..], rest, budget - 1);
      Utf8Prefix(p[1..], rest, budget - |Encode(p[0])|);
    }
  }

  // The encoding of a unit, or nothing if it has no room.
  function IfFits(w: u16, left: int): seq<byte> {
    if |Encode(w)| <= left then Encode(w) else []
  }

  /** What one more unit adds: its encoding, if that fits what is left of the budget after the
      bytes written and the units passed over, and nothing otherwise. */
  ghost predicate AddsIfFits(p: seq<u16>, w: u16, budget: nat) {
    var left := budget - |Utf8(p, budget)| - Dropped(p, budget);
    && left >= 0 && Utf8(p + [w], budget) == Utf8(p, budget) + IfFits(w, left)
    && Dropped(p + [w], budget) == Dropped(p, budget) + (if 0 < left < |Encode(w)| then 1 else 0)
  }

  /** So it is whatever came before: a unit that is passed over does not stop the conversion. */
  lemma {:induction false} Utf8Next(p: seq<u16>, w: u16, budget: nat)
    requires NulFree(p) && w != 0
    ensures AddsIfFits(p, w, budget)
  {
    if budget == 0 {
    } else if p == [] {
      assert p + [w] == [w];
      Utf8First([w], budget);
    } else {
      hide AddsIfFits;
      Utf8Next(p[1..], w, Rest(p[0], budget));
      AddsAfter(p, w, budget);
    }
  }

  lemma AddsAfter(p: seq<u16>, w: u16, budget: nat)
    requires p != [] && p[0] != 0 && budget > 0 && AddsIfFits(p[1..], w, Rest(p[0], budget))
    ensures AddsIfFits(p, w, budget)
  {
    var q, rest := p[1..], Rest(p[0], budget);
    Utf8First(p, budget);
    Utf8First(p + [w], budget);
    assert (p + [w])[1..] == q + [w];
    hide Encode, Utf8, Dropped, IfFits, Rest;
    Associative(IfFits(p[0], budget), Utf8(q, rest), IfFits(w, rest - |Utf8(q, rest)| - Dropped(q, rest)));
  }

  lemma Associative(a: seq<byte>, b: seq<byte>, c: seq<byte>)
    ensures a + (b + c) == (a + b) + c
  {
  }

  // The budget left after a unit.
  function Rest(w: u16, budget: nat): nat
    requires budget > 0
  {
    if |Encode(w)| > budget then budget - 1 else budget - |Encode(w)|
  }

  lemma Utf8First(p: seq<u16>, budget: nat)
    requires p != [] && p[0] != 0 && budget > 0
    ensures var e, rest := IfFits(p[0], budget), Rest(p[0], budget);
      && Utf8(p, budget) == e + Utf8(p[1..], rest)
      && Dropped(p, budget) == budget - |e| - rest + Dropped(p[1..], rest)
  {
    hide Encode;
  }

  /** In three bytes "a", U+0800 and "b" become "ab". */
  lemma Utf8PassesOver()
    ensures Utf8([0x61, 0x800, 0x62], 3) == [0x61, 0x62]
  {
    Utf8Next([], 0x61, 3);
    Utf8Next([0x61], 0x800, 3);
    Utf8Next([0x61, 0x800], 0x62, 3);
    assert [] + [0x61] == [0x61] && [0x61] + [0x800] == [0x61, 0x800] && [0x61, 0x800] + [0x62] == [0x61, 0x800, 0x62];
  }

  // ---------- the code ----------

  /** A row of the table: the lead byte's marker, the shift of its bits and the largest
      character of the row. */
  datatype Row = Row(cval: byte, shift: nat, lmask: nat)

  const UTF8_TABLE: seq<Row> := [
    Row(0x00, 0, 0x7F), Row(0xC0, 6, 0x7FF), Row(0xE0, 12, 0xFFFF),
    Row(0xF0, 18, 0x1F_FFFF), Row(0xF8, 24, 0x3FF_FFFF), Row(0xFC, 30, 0x7FFF_FFFF)]

  lemma Shifts(l: nat)
    ensures Shr(l, 0) == l && Shr(l, 6) == l / 0x40 && Shr(l, 12) == l / 0x1000
  {
    assert Shr(l, 1) == l / 2 && Shr(l, 2) == l / 4 && Shr(l, 3) == l / 8 && Shr(l, 4) == l / 16;
    assert Shr(l, 5) == l / 32 && Shr(l, 7) == l / 128 && Shr(l, 8) == l / 256;
    assert Shr(l, 9) == l / 512 && Shr(l, 10) == l / 1024 && Shr(l, 11) == l / 2048;
  }

  /** Write the encoding of one character at `at`, or nothing if it has no room. The marker and
      the shifted bits have no bits in common, so their union is their sum. */
  method CharacterToUtf8(s: array<byte>, at: nat, wc: u16, maxlen0: nat) returns (nc: int)
    requires at + maxlen0 <= s.Length
    modifies s
    ensures nc == if |Encode(wc)| <= maxlen0 then |Encode(wc)| else -1
    ensures forall k :: 0 <= k < s.Length ==> s[k] == if at <= k < at + nc then Encode(wc)[k - at] else old(s[k])
  {
    Shifts(wc);
    assert UTF8_TABLE[0] == Row(0x00, 0, 0x7F) && UTF8_TABLE[1] == Row(0xC0, 6, 0x7FF);
    assert UTF8_TABLE[2] == Row(0xE0, 12, 0xFFFF);
    nc := 0;
    var t, maxlen := 0, maxlen0;
    while t < |UTF8_TABLE| && maxlen > 0
      invariant nc == t <= 2 && maxlen == maxlen0 - t
      invariant (t >= 1 ==> wc > 0x7F) && (t == 2 ==> wc > 0x7FF)
      invariant forall k :: 0 <= k < s.Length ==> s[k] == old(s[k])
    {
      nc := nc + 1;
      if wc <= UTF8_TABLE[t].lmask {
        var c, i := UTF8_TABLE[t].shift, at;
        assert nc == |Encode(wc)| && c == 6 * (nc - 1);
        assert UTF8_TABLE[t].cval + Shr(wc, c) == Encode(wc)[0];
        s[i] := UTF8_TABLE[t].cval + Shr(wc, c);
        while c > 0
          invariant 0 <= c && c == 6 * (nc - 1 - (i - at)) && at <= i < at + nc
          invariant forall k :: 0 <= k < s.Length ==>
            s[k] == if at <= k <= i then Encode(wc)[k - at] else old(s[k])
        {
          c := c - 6;
          i := i + 1;
          assert c == 0 || c == 6;
          assert 0x80 + Shr(wc, c) % 0x40 == Encode(wc)[i - at];
          s[i] := 0x80 + Shr(wc, c) % 0x40;
        }
        return;
      }
      t, maxlen := t + 1, maxlen - 1;
    }
    nc := -1;
  }

  lemma Utf8End(p: seq<u16>, budget: nat)
    requires p == [] || p[0] == 0 || budget == 0
    ensures Utf8(p, budget) == []
  {
  }

  lemma EncodeAscii(w: u16)
    requires w <= 0x7F
    ensures Encode(w) == [w]
  {
  }

  // What is done and the conversion of the units from `ip` on make up the result.
  ghost predicate Converting(p: seq<u16>, ip: nat, budget: nat, done: seq<byte>, all: seq<byte>) {
    ip <= |p| && all == done + Utf8(p[ip..], budget)
  }

  // One step of the conversion: the next unit is encoded or passed over.
  lemma Utf8Step(p: seq<u16>, ip: nat, budget: nat, done: seq<byte>, all: seq<byte>)
    requires ip < |p| && p[ip] != 0 && budget > 0 && Converting(p, ip, budget, done, all)
    ensures var e := Encode(p[ip]);
      if |e| > budget then Converting(p, ip + 1, budget - 1, done, all)
      else Converting(p, ip + 1, budget - |e|, done + e, all)
  {
    hide Encode;
    assert p[ip..][1..] == p[ip + 1..];
  }

  // The buffer holds `done` at its start and otherwise what it held before.
  ghost predicate Written(s: array<byte>, was: seq<byte>, op: nat, done: seq<byte>)
    requires |was| == s.Length
    reads s
  {
    op == |done| && forall k :: 0 <= k < s.Length ==> s[k] == if k < op then done[k] else was[k]
  }

  /** Write one unit behind what has been written; -1 if it has no room. */
  method PutUnit(s: array<byte>, op: nat, w: u16, maxlen: nat, ghost was: seq<byte>, ghost done: seq<byte>)
      returns (size: int)
    requires 0 < maxlen && op + maxlen <= s.Length == |was| && Written(s, was, op, done)
    modifies s
    ensures size == if |Encode(w)| <= maxlen then |Encode(w)| else -1
    ensures if size == -1 then Written(s, was, op, done) else Written(s, was, op + size, done + Encode(w))
  {
    if w > 0x7F {
      hide Encode;
      size := CharacterToUtf8(s, op, w, maxlen);
    } else {
      EncodeAscii(w);
      hide Encode;
      s[op] := w;
      size := 1;
    }
  }

  /** Convert a NUL-terminated string into the buffer and return the number of bytes. */
  method StringToUtf8(s: array<byte>, pwcs: seq<u16>, maxlen0: nat) returns (n: nat)
    requires 0 in pwcs && maxlen0 <= s.Length
    modifies s
    ensures n == |Utf8(pwcs, maxlen0)| <= maxlen0
    ensures forall k :: 0 <= k < s.Length ==> s[k] == if k < n then Utf8(pwcs, maxlen0)[k] else old(s[k])
  {
    hide Encode, Utf8, Written, Converting;
    var op, ip, maxlen := 0, 0, maxlen0;
    ghost var was, done: seq<byte> := s[..], [];
    ghost var end :| 0 <= end < |pwcs| && pwcs[end] == 0;
    ghost var all := Utf8(pwcs, maxlen0);
    WrittenNothing(s);
    ConvertingAll(pwcs, maxlen0);
    while pwcs[ip] != 0 && maxlen > 0
      invariant 0 <= ip <= end
      invariant 0 <= maxlen && 0 <= op && op + maxlen <= maxlen0
      invariant Written(s, was, op, done)
      invariant Converting(pwcs, ip, maxlen, done, all)
      decreases |pwcs| - ip
    {
      Utf8Step(pwcs, ip, maxlen, done, all);
      var size := PutUnit(s, op, pwcs[ip], maxlen, was, done);
      if size == -1 {
        maxlen := maxlen - 1;
      } else {
        done := done + Encode(pwcs[ip]);
        op := op + size;
        maxlen := maxlen - size;
      }
      ip := ip + 1;
    }
    n := op;
    WrittenAll(s, was, op, done, pwcs, ip, maxlen, all);
  }

  lemma WrittenNothing(s: array<byte>)
    ensures Written(s, s[..], 0, [])
  {
  }

  lemma ConvertingAll(p: seq<u16>, budget: nat)
    ensures Converting(p, 0, budget, [], Utf8(p, budget))
  {
    assert p[0..] == p;
  }

  lemma WrittenAll(s: array<byte>, was: seq<byte>, op: nat, done: seq<byte>, p: seq<u16>, ip: nat, budget: nat,
                   all: seq<byte>)
    requires |was| == s.Length && Written(s, was, op, done)
    requires ip < |p| && (p[ip] == 0 || budget == 0) && Converting(p, ip, budget, done, all)
    ensures op == |all| && forall k :: 0 <= k < s.Length ==> s[k] == if k < op then all[k] else was[k]
  {
    Utf8End(p[ip..], budget);
  }
}
