/** The UTF-8 reader and writer (section 2 of RFC 2279), on code points up to 31 bits. */
module Utf8 {
  import opened Bytes

  const REPLACEMENT := 0xFFFD
  const MAX_CODE := 0x7FFF_FFFF

  // code points that are never given back: surrogates, noncharacters, 0xfffe and 0xffff
  predicate IsReplaced(c: nat) {
    0xD800 <= c <= 0xDFFF || 0xFDD0 <= c <= 0xFDEF || c == 0xFFFE || c == 0xFFFF
  }

  predicate IsContinuation(b: Byte) { 0x80 <= b < 0xC0 }

  // SizeOfUtf8
  function SizeOf(c: nat): nat {
    if c <= 0x7F then 1
    else if c <= 0x7FF then 2
    else if c <= 0xFFFF then 3
    else if c <= 0x1F_FFFF then 4
    else if c <= 0x3FF_FFFF then 5
    else if c <= MAX_CODE then 6
    else 3
  }

  // the least code point that needs n bytes
  function MinOf(n: nat): nat {
    match n
    case 2 => 0x80
    case 3 => 0x800
    case 4 => 0x1_0000
    case 5 => 0x20_0000
    case 6 => 0x400_0000
    case _ => 0
  }

  // the high bits of the first of n > 1 bytes
  function LeadMask(n: nat): Byte {
    match n
    case 2 => 0xC0
    case 3 => 0xE0
    case 4 => 0xF0
    case 5 => 0xF8
    case _ => 0xFC
  }

  // how many values a first byte of n > 1 holds
  function LeadValues(n: nat): nat {
    match n
    case 2 => 32
    case 3 => 16
    case 4 => 8
    case 5 => 4
    case _ => 2
  }

  // ---- the encoding, six bits to a byte

  // c without its lowest 6 * k bits, and those bits
  function Top(c: nat, k: nat): nat {
    if k == 0 then c else Top(c / 64, k - 1)
  }

  function Continuations(c: nat, k: nat): (r: seq<Byte>)
    ensures |r| == k
  {
    if k == 0 then [] else Continuations(c / 64, k - 1) + [0x80 + c % 64]
  }

  // bound times 64, k times over
  function Scaled(bound: nat, k: nat): nat { if k == 0 then bound else Scaled(bound, k - 1) * 64 }

  lemma {:induction false} TopBound(c: nat, k: nat, bound: nat)
    requires c < Scaled(bound, k)
    ensures Top(c, k) < bound
  {
    if k > 0 {
      TopBound(c / 64, k - 1, bound);
    }
  }

  lemma ScaledIs(v: nat)
    ensures Scaled(v, 1) == v * 64
    ensures Scaled(v, 2) == v * 64 * 64
    ensures Scaled(v, 3) == v * 64 * 64 * 64
    ensures Scaled(v, 4) == v * 64 * 64 * 64 * 64
    ensures Scaled(v, 5) == v * 64 * 64 * 64 * 64 * 64
  {
    assert Scaled(v, 2) == Scaled(v, 1) * 64;
    assert Scaled(v, 3) == Scaled(v, 2) * 64;
    assert Scaled(v, 4) == Scaled(v, 3) * 64;
    assert Scaled(v, 5) == Scaled(v, 4) * 64;
  }

  lemma TopFits(c: nat)
    requires 0x80 <= c <= MAX_CODE
    ensures SizeOf(c) >= 2 && Top(c, SizeOf(c) - 1) < LeadValues(SizeOf(c))
  {
    hide Top, Scaled;
    ScaledIs(LeadValues(SizeOf(c)));
    TopBound(c, SizeOf(c) - 1, LeadValues(SizeOf(c)));
  }

  function Encode(c: nat): (r: seq<Byte>)
    requires c <= MAX_CODE
    ensures |r| == SizeOf(c)
  {
    if c < 0x80 then [c]
    else
      var n := SizeOf(c);
      TopFits(c);
      [LeadMask(n) + Top(c, n - 1)] + Continuations(c, n - 1)
  }

  // ---- the table of section 2 of RFC 2279, in numbers

  function RfcBytes(c: nat): seq<int> {
    if c <= 0x7F then [c]
    else if c <= 0x7FF then [0xC0 + c / 64, 0x80 + c % 64]
    else if c <= 0xFFFF then [0xE0 + c / 4096, 0x80 + c / 64 % 64, 0x80 + c % 64]
    else if c <= 0x1F_FFFF then
      [0xF0 + c / 262144, 0x80 + c / 4096 % 64, 0x80 + c / 64 % 64, 0x80 + c % 64]
    else if c <= 0x3FF_FFFF then
      [0xF8 + c / 16777216, 0x80 + c / 262144 % 64, 0x80 + c / 4096 % 64, 0x80 + c / 64 % 64, 0x80 + c % 64]
    else
      [0xFC + c / 1073741824, 0x80 + c / 16777216 % 64, 0x80 + c / 262144 % 64, 0x80 + c / 4096 % 64,
       0x80 + c / 64 % 64, 0x80 + c % 64]
  }

  lemma Divided(c: nat)
    ensures c / 64 / 64 == c / 4096 && c / 64 / 4096 == c / 262144
    ensures c / 64 / 262144 == c / 16777216 && c / 64 / 16777216 == c / 1073741824
  {
  }

  lemma OneUnrolled(c: nat)
    ensures Top(c, 1) == c / 64 && Continuations(c, 1) == [0x80 + c % 64]
  {
    assert Top(c / 64, 0) == c / 64 && Continuations(c / 64, 0) == [];
  }

  lemma TwoUnrolled(c: nat)
    ensures Top(c, 2) == c / 4096 && Continuations(c, 2) == [0x80 + c / 64 % 64, 0x80 + c % 64]
  {
    hide Top, Continuations;
    NextContinuation(c, 2);
    OneUnrolled(c / 64);
    Divided(c);
  }

  lemma ThreeUnrolled(c: nat)
    ensures Top(c, 3) == c / 262144
    ensures Continuations(c, 3) == [0x80 + c / 4096 % 64, 0x80 + c / 64 % 64, 0x80 + c % 64]
  {
    hide Top, Continuations;
    NextContinuation(c, 3);
    TwoUnrolled(c / 64);
    Divided(c);
  }

  lemma FourUnrolled(c: nat)
    ensures Top(c, 4) == c / 16777216
    ensures Continuations(c, 4) ==
            [0x80 + c / 262144 % 64, 0x80 + c / 4096 % 64, 0x80 + c / 64 % 64, 0x80 + c % 64]
  {
    hide Top, Continuations;
    NextContinuation(c, 4);
    ThreeUnrolled(c / 64);
    Divided(c);
  }

  lemma FiveUnrolled(c: nat)
    ensures Top(c, 5) == c / 1073741824
    ensures Continuations(c, 5) ==
            [0x80 + c / 16777216 % 64, 0x80 + c / 262144 % 64, 0x80 + c / 4096 % 64, 0x80 + c / 64 % 64, 0x80 + c % 64]
  {
    hide Top, Continuations;
    NextContinuation(c, 5);
    FourUnrolled(c / 64);
    Divided(c);
  }

  // the encoding is the table's
  lemma EncodeIsRfc(c: nat)
    requires c <= MAX_CODE
    ensures Encode(c) == RfcBytes(c)
  {
    hide Top, Continuations;
    OneUnrolled(c);
    TwoUnrolled(c);
    ThreeUnrolled(c);
    FourUnrolled(c);
    FiveUnrolled(c);
  }

  // the code point of a first value followed by continuation bytes
  function Joined(top: nat, bytes: seq<Byte>): nat {
    if bytes == [] then top
    else Joined(top, bytes[..|bytes| - 1]) * 64 + bytes[|bytes| - 1] % 64
  }

  lemma {:induction false} JoinedSplits(top: nat, bytes: seq<Byte>)
    requires forall i :: 0 <= i < |bytes| ==> IsContinuation(bytes[i])
    ensures Top(Joined(top, bytes), |bytes|) == top && Continuations(Joined(top, bytes), |bytes|) == bytes
  {
    if bytes != [] {
      var n := |bytes| - 1;
      JoinedSplits(top, bytes[..n]);
      assert bytes == bytes[..n] + [bytes[n]];
    }
  }

  lemma {:induction false} SplitJoins(c: nat, k: nat)
    ensures Joined(Top(c, k), Continuations(c, k)) == c
    ensures forall i :: 0 <= i < k ==> IsContinuation(Continuations(c, k)[i])
  {
    if k > 0 {
      SplitJoins(c / 64, k - 1);
      assert Continuations(c, k)[..k - 1] == Continuations(c / 64, k - 1);
    }
  }

  // ---- what a read does

  // the length that a first byte from 0xc0 on announces
  function Announced(lead: Byte): nat {
    if lead < 0xE0 then 2
    else if lead < 0xF0 then 3
    else if lead < 0xF8 then 4
    else if lead < 0xFC then 5
    else if lead < 0xFE then 6
    else 1
  }

  // the first of the announced bytes that is no continuation, or all of them
  function FirstBad(s: seq<Byte>, len: nat, i: nat): (r: nat)
    requires i <= len <= |s|
    ensures i <= r <= len
    ensures forall k :: i <= k < r ==> IsContinuation(s[k])
    ensures r < len ==> !IsContinuation(s[r])
    decreases len - i
  {
    if i == len || !IsContinuation(s[i]) then i else FirstBad(s, len, i + 1)
  }

  // the bytes that a read takes from a non-empty text
  function Taken(s: seq<Byte>): (n: nat)
    requires s != []
    ensures 1 <= n <= |s|
  {
    if s[0] < 0xC0 then 1
    else if Announced(s[0]) > |s| then |s|
    else FirstBad(s, Announced(s[0]), 1)
  }

  // s begins with the encoding of a code point that is given back
  ghost predicate Begins(s: seq<Byte>, c: nat) {
    c <= MAX_CODE && !IsReplaced(c) && SizeOf(c) <= |s| && s[..SizeOf(c)] == Encode(c)
  }

  // the code point is given back if and only if its encoding stands there
  ghost predicate IsRead(s: seq<Byte>, c: nat, n: nat) {
    && s != [] && n == Taken(s)
    && (c == REPLACEMENT || (Begins(s, c) && n == SizeOf(c)))
    && (forall d :: Begins(s, d) ==> c == d)
  }

  lemma EncodedTaken(s: seq<Byte>, c: nat)
    requires Begins(s, c)
    ensures s != [] && Taken(s) == SizeOf(c) && (c >= 0x80 ==> s[0] >= 0xC0 && Announced(s[0]) == SizeOf(c))
  {
    assert s[0] == s[..SizeOf(c)][0];
    if c >= 0x80 {
      LeadAnnounces(c);
      forall i | 1 <= i < SizeOf(c) ensures IsContinuation(s[i]) {
        assert s[i] == s[..SizeOf(c)][i];
      }
    }
    hide Encode, Announced, SizeOf;
  }

  lemma LeadAnnounces(c: nat)
    requires 0x80 <= c <= MAX_CODE
    ensures 2 <= SizeOf(c) == |Encode(c)| && Encode(c)[0] >= 0xC0 && Announced(Encode(c)[0]) == SizeOf(c)
    ensures forall i :: 1 <= i < SizeOf(c) ==> IsContinuation(Encode(c)[i])
  {
    TopFits(c);
    SplitJoins(c, SizeOf(c) - 1);
  }

  // the value of a complete sequence of n bytes
  function ValueOf(s: seq<Byte>, n: nat): nat
    requires 2 <= n <= |s|
  {
    Joined(s[0] % LeadValues(n), s[1..n])
  }

  lemma BeginsIsValue(s: seq<Byte>, n: nat, c: nat)
    requires 2 <= n <= |s| && n <= 6 && Begins(s, c) && SizeOf(c) == n
    ensures c == ValueOf(s, n) >= MinOf(n)
  {
    hide Encode;
    assert s[0] == Encode(c)[0] && s[1..n] == Encode(c)[1..];
    EncodeParts(c);
    SplitJoins(c, n - 1);
    TopFits(c);
  }

  lemma EncodeParts(c: nat)
    requires 0x80 <= c <= MAX_CODE
    ensures Encode(c)[0] == LeadMask(SizeOf(c)) + Top(c, SizeOf(c) - 1)
    ensures Encode(c)[1..] == Continuations(c, SizeOf(c) - 1)
    ensures Encode(c)[0] % LeadValues(SizeOf(c)) == Top(c, SizeOf(c) - 1)
  {
    hide Top;
    TopFits(c);
  }

  // a complete sequence whose value is not too small for its length is that value's encoding
  lemma ValueBegins(s: seq<Byte>, n: nat)
    requires 2 <= n <= 6 && n <= |s| && s[0] >= 0xC0 && Announced(s[0]) == n
    requires forall i :: 1 <= i < n ==> IsContinuation(s[i])
    requires ValueOf(s, n) >= MinOf(n)
    ensures var c := ValueOf(s, n);
            c <= MAX_CODE && SizeOf(c) == n && s[..n] == Encode(c)
  {
    var c := ValueOf(s, n);
    JoinedSplits(s[0] % LeadValues(n), s[1..n]);
    ValueIsSmall(s, n);
    hide Joined;
    EncodeParts(c);
    LeadIs(s[0], n);
    assert s[..n] == [s[0]] + s[1..n];
    assert Encode(c) == [Encode(c)[0]] + Encode(c)[1..];
  }

  lemma LeadIs(lead: Byte, n: nat)
    requires lead >= 0xC0 && Announced(lead) == n && 2 <= n <= 6
    ensures lead == LeadMask(n) + lead % LeadValues(n)
  {
  }

  lemma {:induction false} JoinedBound(top: nat, bytes: seq<Byte>, bound: nat)
    requires top < bound
    ensures Joined(top, bytes) < Scaled(bound, |bytes|)
  {
    if bytes != [] {
      JoinedBound(top, bytes[..|bytes| - 1], bound);
    }
  }

  lemma ValueIsSmall(s: seq<Byte>, n: nat)
    requires 2 <= n <= 6 && n <= |s|
    ensures ValueOf(s, n) <= MAX_CODE && (ValueOf(s, n) >= MinOf(n) ==> SizeOf(ValueOf(s, n)) == n)
  {
    hide Joined;
    JoinedBound(s[0] % LeadValues(n), s[1..n], LeadValues(n));
    ScaledIs(LeadValues(n));
  }

  // the announced bytes are all there, and continuations, but their value is no code point
  // to give back
  lemma NothingBegins(s: seq<Byte>, n: nat)
    requires s != [] && s[0] >= 0xC0 && n == Announced(s[0]) && 2 <= n <= |s|
    requires ValueOf(s, n) < MinOf(n) || IsReplaced(ValueOf(s, n))
    ensures forall c :: !Begins(s, c)
  {
    hide Encode, ValueOf;
    forall c ensures !Begins(s, c) {
      if Begins(s, c) {
        EncodedTaken(s, c);
        if c < 0x80 {
          FirstByteIsAscii(s, c);
        } else {
          BeginsIsValue(s, n, c);
        }
      }
    }
  }

  // below 0x80 a code point is its own byte
  lemma FirstByteIsAscii(s: seq<Byte>, c: nat)
    requires Begins(s, c) && s != [] && c < 0x80
    ensures s[0] == c
  {
    assert s[..1][0] == s[0];
  }

  // the first byte starts nothing, or what it announces does not follow
  lemma NothingFollows(s: seq<Byte>)
    requires s != [] && s[0] >= 0x80
    requires s[0] < 0xC0 || Announced(s[0]) == 1 || Taken(s) < Announced(s[0])
    ensures IsRead(s, REPLACEMENT, Taken(s))
  {
    hide Encode, Taken;
    forall c ensures !Begins(s, c) {
      if Begins(s, c) {
        EncodedTaken(s, c);
        if c < 0x80 {
          FirstByteIsAscii(s, c);
        }
      }
    }
  }

  ghost predicate IsComplete(s: seq<Byte>, n: nat) {
    && s != [] && s[0] >= 0xC0 && n == Announced(s[0]) && 2 <= n <= |s|
    && Taken(s) == n && forall i :: 1 <= i < n ==> IsContinuation(s[i])
  }

  lemma ReadsValue(s: seq<Byte>, n: nat)
    requires IsComplete(s, n)
    ensures var c := ValueOf(s, n);
            IsRead(s, if c < MinOf(n) || IsReplaced(c) then REPLACEMENT else c, n)
    ensures IsReplaced(ValueOf(s, n)) && ValueOf(s, n) >= MinOf(n) ==> n == 3
  {
    hide Encode, ValueOf, Taken;
    var c := ValueOf(s, n);
    ValueIsSmall(s, n);
    if c < MinOf(n) || IsReplaced(c) {
      NothingBegins(s, n);
    } else {
      ValueBegins(s, n);
      forall d | Begins(s, d) ensures d == c {
        EncodedTaken(s, d);
        if d < 0x80 {
          FirstByteIsAscii(s, d);
        } else {
          BeginsIsValue(s, n, d);
        }
      }
    }
  }

  lemma ReadsAscii(s: seq<Byte>)
    requires s != [] && s[0] < 0x80
    ensures IsRead(s, s[0], 1)
  {
    assert s[..1] == [s[0]];
    forall d | Begins(s, d) ensures d == s[0] {
      EncodedTaken(s, d);
      assert s[..SizeOf(d)][0] == s[0];
    }
  }

  // the lowest bits of a byte
  function Low(b: Byte, values: nat): nat
    requires values > 0
  {
    b % values
  }

  lemma ShortValues(s: seq<Byte>)
    ensures |s| >= 2 ==> ValueOf(s, 2) == Low(s[0], 32) * 64 + Low(s[1], 64)
    ensures |s| >= 3 ==> ValueOf(s, 3) == Low(s[0], 16) * 4096 + Low(s[1], 64) * 64 + Low(s[2], 64)
    ensures |s| >= 4 ==>
              ValueOf(s, 4) == Low(s[0], 8) * 262144 + Low(s[1], 64) * 4096 + Low(s[2], 64) * 64 + Low(s[3], 64)
  {
    if |s| >= 2 {
      JoinedMore(s[0] % 32, s, 1);
      JoinedMore(s[0] % 16, s, 1);
      JoinedMore(s[0] % 8, s, 1);
    }
    if |s| >= 3 {
      JoinedMore(s[0] % 16, s, 2);
      JoinedMore(s[0] % 8, s, 2);
    }
    if |s| >= 4 {
      JoinedMore(s[0] % 8, s, 3);
    }
  }

  lemma JoinedMore(top: nat, s: seq<Byte>, i: nat)
    requires 1 <= i < |s|
    ensures Joined(top, s[1..1]) == top
    ensures Joined(top, s[1..i + 1]) == Joined(top, s[1..i]) * 64 + s[i] % 64
  {
    assert s[1..i + 1][..i - 1] == s[1..i];
  }

  // ---- the same in numbers

  // a read of s gives c and takes n bytes: where the bytes of a code point stand, that code
  // point unless it is replaced, and those bytes; elsewhere the replacement character. Of a
  // broken sequence it takes the bytes up to the first that is no continuation, and at the end
  // of the text all that is left
  ghost predicate ReadsInNumbers(s: seq<Byte>, c: nat, n: nat)
    requires s != []
  {
    && (forall d: nat :: d <= 0x7FFF_FFFF && RfcBytes(d) <= s ==>
          n == |RfcBytes(d)| && c == if IsReplaced(d) then 0xFFFD else d)
    && ((forall d: nat :: d <= 0x7FFF_FFFF ==> !(RfcBytes(d) <= s)) ==> c == 0xFFFD)
    && TakesInNumbers(s, n)
  }

  ghost predicate TakesInNumbers(s: seq<Byte>, n: nat)
    requires s != []
  {
    var announced :=
      if s[0] < 0xC0 then 1
      else if s[0] < 0xE0 then 2
      else if s[0] < 0xF0 then 3
      else if s[0] < 0xF8 then 4
      else if s[0] < 0xFC then 5
      else if s[0] < 0xFE then 6
      else 1;
    if announced > |s| then n == |s|
    else
      && 1 <= n <= announced
      && (forall k :: 1 <= k < n ==> 0x80 <= s[k] <= 0xBF)
      && (n < announced ==> !(0x80 <= s[n] <= 0xBF))
  }

  lemma TakenInNumbers(s: seq<Byte>)
    requires s != []
    ensures TakesInNumbers(s, Taken(s))
  {
  }

  lemma ReadInNumbers(s: seq<Byte>, c: nat, n: nat)
    requires IsRead(s, c, n)
    ensures ReadsInNumbers(s, c, n)
  {
    hide Encode, Taken, RfcBytes, TakesInNumbers;
    TakenInNumbers(s);
    forall d: nat | d <= MAX_CODE && RfcBytes(d) <= s
      ensures n == |RfcBytes(d)| && c == if IsReplaced(d) then REPLACEMENT else d
    {
      EncodeIsRfc(d);
      WholeIsTaken(s, d);
      if IsReplaced(d) && c != REPLACEMENT {
        WholeIsOne(s, d, c);
      }
      assert !IsReplaced(d) ==> Begins(s, d);
    }
    if c != REPLACEMENT {
      EncodeIsRfc(c);
      assert s[..SizeOf(c)] <= s;
    }
  }

  // the encoding of a code point, replaced or not, is taken whole, and is no other's
  lemma WholeIsTaken(s: seq<Byte>, c: nat)
    requires c <= MAX_CODE && Encode(c) <= s
    ensures s != [] && Taken(s) == SizeOf(c)
  {
    assert s[0] == Encode(c)[0];
    if c >= 0x80 {
      var n := SizeOf(c);
      TopFits(c);
      SplitJoins(c, n - 1);
      forall i | 1 <= i < n ensures IsContinuation(s[i]) {
        assert s[i] == Encode(c)[i] == Continuations(c, n - 1)[i - 1];
      }
    }
  }

  lemma WholeIsOne(s: seq<Byte>, c: nat, d: nat)
    requires c <= MAX_CODE && d <= MAX_CODE && Encode(c) <= s && Encode(d) <= s
    ensures c == d
  {
    hide Encode, Taken;
    WholeIsTaken(s, c);
    WholeIsTaken(s, d);
    assert Encode(c) == s[..SizeOf(c)] && Encode(d) == s[..SizeOf(d)];
    if c >= 0x80 {
      EncodeParts(c);
      EncodeParts(d);
      SplitJoins(c, SizeOf(c) - 1);
      SplitJoins(d, SizeOf(d) - 1);
    } else {
      FirstIsCode(c);
      FirstIsCode(d);
    }
  }

  lemma FirstIsCode(c: nat)
    requires c <= MAX_CODE
    ensures c < 0x80 <==> SizeOf(c) == 1
    ensures c < 0x80 ==> Encode(c)[0] == c
  {
  }

  // ---- the reader

  method ReadUtf8(s: seq<Byte>, p: nat) returns (c: nat, q: nat)
    ensures p >= |s| ==> c == 0 && q == p
    ensures p < |s| ==> p < q <= |s| && ReadsInNumbers(s[p..], c, q - p)
    ensures p < |s| ==> IsRead(s[p..], c, q - p)
  {
    c, q := ReadAny(s, p);
    if p < |s| {
      ReadInNumbers(s[p..], c, q - p);
    }
  }

  method ReadAny(s: seq<Byte>, p: nat) returns (c: nat, q: nat)
    ensures p >= |s| ==> c == 0 && q == p
    ensures p < |s| ==> p < q <= |s| && IsRead(s[p..], c, q - p)
  {
    hide IsRead, ValueOf, Taken;
    if p >= |s| {
      return 0, p;
    }
    ghost var t := s[p..];
    var lead := s[p];
    if lead < 0x80 {
      ReadsAscii(t);
      return lead, p + 1;
    }
    TakenIs(t);
    if IsContinuation(lead) {
      NothingFollows(t);
      return REPLACEMENT, p + 1;
    }
    var len :=
      if lead < 0xE0 then 2
      else if lead < 0xF0 then 3
      else if lead < 0xF8 then 4
      else if lead < 0xFC then 5
      else if lead < 0xFE then 6
      else 1;
    if p + len > |s| {
      NothingFollows(t);
      return REPLACEMENT, |s|;
    }
    if len == 1 {
      NothingFollows(t);
      return REPLACEMENT, p + 1;
    }
    ShortValues(t);
    match len {
      case 2 => c, q := ReadTwo(s, p);
      case 3 => c, q := ReadThree(s, p);
      case 4 => c, q := ReadFour(s, p);
      case _ => c, q := ReadLong(s, p, len);
    }
  }

  lemma TakenIs(s: seq<Byte>)
    requires s != []
    ensures s[0] < 0xC0 || Announced(s[0]) == 1 ==> Taken(s) == 1
    ensures s[0] >= 0xC0 && Announced(s[0]) > |s| ==> Taken(s) == |s|
    ensures s[0] >= 0xC0 && Announced(s[0]) <= |s| ==>
              && Taken(s) <= Announced(s[0])
              && (forall k :: 1 <= k < Taken(s) ==> IsContinuation(s[k]))
              && (Taken(s) < Announced(s[0]) ==> !IsContinuation(s[Taken(s)]))
  {
  }

  method ReadTwo(s: seq<Byte>, p: nat) returns (c: nat, q: nat)
    requires p + 2 <= |s| && s[p] >= 0xC0 && Announced(s[p]) == 2
    ensures p < q <= |s| && IsRead(s[p..], c, q - p)
  {
    hide IsRead, ValueOf, Taken;
    ghost var t := s[p..];
    TakenIs(t);
    var b1 := s[p + 1];
    if !IsContinuation(b1) {
      NothingFollows(t);
      return REPLACEMENT, p + 1;
    }
    ShortValues(t);
    ReadsValue(t, 2);
    c := Low(s[p], 32) * 64 + Low(b1, 64);
    q := p + 2;
    if c < 0x80 {
      c := REPLACEMENT;
    }
  }

  method ReadThree(s: seq<Byte>, p: nat) returns (c: nat, q: nat)
    requires p + 3 <= |s| && s[p] >= 0xC0 && Announced(s[p]) == 3
    ensures p < q <= |s| && IsRead(s[p..], c, q - p)
  {
    hide IsRead, ValueOf, Taken;
    ghost var t := s[p..];
    TakenIs(t);
    var b1, b2 := s[p + 1], s[p + 2];
    if !IsContinuation(b1) || !IsContinuation(b2) {
      NothingFollows(t);
      return REPLACEMENT, p + (if !IsContinuation(b1) then 1 else 2);
    }
    ShortValues(t);
    ReadsValue(t, 3);
    c := Low(s[p], 16) * 4096 + Low(b1, 64) * 64 + Low(b2, 64);
    q := p + 3;
    if c < 0x800 || 0xD800 <= c <= 0xDFFF || 0xFDD0 <= c <= 0xFDEF || c == 0xFFFE || c == 0xFFFF {
      c := REPLACEMENT;
    }
  }

  method ReadFour(s: seq<Byte>, p: nat) returns (c: nat, q: nat)
    requires p + 4 <= |s| && s[p] >= 0xC0 && Announced(s[p]) == 4
    ensures p < q <= |s| && IsRead(s[p..], c, q - p)
  {
    hide IsRead, ValueOf, Taken;
    ghost var t := s[p..];
    TakenIs(t);
    var b1, b2, b3 := s[p + 1], s[p + 2], s[p + 3];
    if !IsContinuation(b1) || !IsContinuation(b2) || !IsContinuation(b3) {
      NothingFollows(t);
      return REPLACEMENT, p + (if !IsContinuation(b1) then 1 else if !IsContinuation(b2) then 2 else 3);
    }
    ShortValues(t);
    ReadsValue(t, 4);
    c := Low(s[p], 8) * 262144 + Low(b1, 64) * 4096 + Low(b2, 64) * 64 + Low(b3, 64);
    q := p + 4;
    if c < 0x1_0000 {
      c := REPLACEMENT;
    }
  }

  // five and six bytes
  method ReadLong(s: seq<Byte>, p: nat, len: nat) returns (c: nat, q: nat)
    requires len >= 5 && p + len <= |s| && s[p] >= 0xC0 && Announced(s[p]) == len
    ensures p < q <= |s| && IsRead(s[p..], c, q - p)
  {
    hide IsRead, Taken, Joined;
    ghost var t := s[p..];
    TakenIs(t);
    c := s[p] % LeadValues(len);
    JoinedMore(c, t, 1);
    for i := 1 to len
      invariant c == Joined(s[p] % LeadValues(len), t[1..i])
      invariant forall k :: 1 <= k < i ==> IsContinuation(t[k])
    {
      if !IsContinuation(s[p + i]) {
        NothingFollows(t);
        return REPLACEMENT, p + i;
      }
      JoinedMore(s[p] % LeadValues(len), t, i);
      c := c * 64 + s[p + i] % 64;
    }
    ReadsValue(t, len);
    q := p + len;
    if c < MinOf(len) {
      c := REPLACEMENT;
    }
  }

  // NextUtf8
  method NextUtf8(s: seq<Byte>, p: nat) returns (q: nat)
    ensures q == if p < |s| then p + Taken(s[p..]) else p
    ensures p < |s| ==> q > p && TakesInNumbers(s[p..], q - p)
  {
    if p < |s| {
      TakenInNumbers(s[p..]);
    }
    if p < |s| && s[p] < 0x80 {
      return p + 1;
    }
    var c;
    c, q := ReadUtf8(s, p);
  }

  // the nearest byte before p that may start a character, or the first byte
  method PreviousUtf8(s: seq<Byte>, p: nat) returns (q: nat)
    requires p <= |s|
    ensures q <= p && (p > 0 ==> q < p)
    ensures q > 0 ==> !IsContinuation(s[q])
    ensures forall k :: q < k < p ==> IsContinuation(s[k])
  {
    q := p;
    while true
      invariant q <= p && forall k :: q <= k < p ==> IsContinuation(s[k])
      decreases q
    {
      if q == 0 {
        return;
      }
      q := q - 1;
      if !IsContinuation(s[q]) {
        return;
      }
    }
  }

  // stepping back from the end of a character that was read finds its start
  method StepBack(s: seq<Byte>, p: nat, ghost c: nat) returns (q: nat)
    requires p <= |s| && Begins(s[p..], c)
    ensures q == p
  {
    hide Encode, Taken;
    EncodedTaken(s[p..], c);
    EncodedBytes(s[p..], c);
    ghost var n := SizeOf(c);
    assert forall k :: p < k < p + n ==> s[k] == s[p..][k - p];
    q := PreviousUtf8(s, p + Taken(s[p..]));
  }

  lemma EncodedBytes(s: seq<Byte>, c: nat)
    requires Begins(s, c)
    ensures s != [] && !IsContinuation(s[0]) && forall k :: 1 <= k < SizeOf(c) ==> IsContinuation(s[k])
  {
    EncodedTaken(s, c);
    if c < 0x80 {
      FirstByteIsAscii(s, c);
    }
  }

  // ---- the writer

  // the encoding of c, or of the replacement character, in place; nothing when there is no room
  method WriteUtf8(a: array<Byte>, p: nat, code: nat) returns (q: nat)
    modifies a
    ensures var bytes := RfcBytes(if code > 0x7FFF_FFFF then 0xFFFD else code);
            if p + |bytes| > a.Length then q == p && a[..] == old(a[..])
            else q == p + |bytes| && a[..] == old(a[..p]) + bytes + old(a[q..])
  {
    hide RfcBytes;
    EncodeIsRfc(if code > MAX_CODE then REPLACEMENT else code);
    var c := code;
    if c < 0x80 {
      if p >= a.Length {
        return p;
      }
      a[p] := c;
      return p + 1;
    }
    if c < 0x800 {
      if p + 2 > a.Length {
        return p;
      }
      TwoBytes(c);
      a[p + 1] := 0x80 + c % 64;
      a[p] := 0xC0 + c / 64;
      assert a[..] == old(a[..p]) + [0xC0 + c / 64, 0x80 + c % 64] + old(a[p + 2..]);
      return p + 2;
    }
    if c > MAX_CODE {
      c := REPLACEMENT;
    }
    var len := SizeOf(c);
    if p + len > a.Length {
      return p;
    }
    WriteLong(a, p, c, len);
    return p + len;
  }

  // the continuation bytes from back to front, then the first byte
  method WriteLong(a: array<Byte>, p: nat, code: nat, len: nat)
    requires 0x800 <= code <= MAX_CODE && len == SizeOf(code) && p + len <= a.Length
    modifies a
    ensures a[..] == old(a[..p]) + Encode(code) + old(a[p + len..])
  {
    hide Top, Continuations, Encode, SizeOf, LeadMask, LeadValues;
    TopFits(code);
    EncodeParts(code);
    var c := WriteContinuations(a, p + 1, code, len - 1);
    ghost var before := a[..];
    var lead := LeadOf(len, c);
    a[p] := lead;
    OneByteSet(before, a[..], p, p + len, lead);
    assert before[..p] == old(a[..p + 1])[..p] == old(a[..p]);
    assert Encode(code) == [lead] + Encode(code)[1..];
  }

  function LeadOf(n: nat, top: nat): Byte
    requires n >= 2 && top < LeadValues(n)
  {
    LeadMask(n) + top
  }

  lemma OneByteSet(before: seq<Byte>, after: seq<Byte>, p: nat, q: nat, b: Byte)
    requires p < q <= |before| && after == before[p := b]
    ensures after == before[..p] + ([b] + before[p + 1..q]) + before[q..]
  {
  }

  method WriteContinuations(a: array<Byte>, p: nat, code: nat, k: nat) returns (c: nat)
    requires p + k <= a.Length
    modifies a
    ensures c == Top(code, k)
    ensures a[..p] == old(a[..p]) && a[p..p + k] == Continuations(code, k) && a[p + k..] == old(a[p + k..])
  {
    hide Top, Continuations;
    c := code;
    ghost var tail := Continuations(code, k);
    var i := k;
    while i >= 1
      invariant 0 <= i <= k
      invariant Top(c, i) == Top(code, k)
      invariant tail[..i] == Continuations(c, i)
      invariant a[..p + i] == old(a[..p + i])
      invariant a[p + i..p + k] == tail[i..]
      invariant a[p + k..] == old(a[p + k..])
      decreases i
    {
      NextContinuation(c, i);
      LastOfPrefix(tail, i, Continuations(c / 64, i - 1), 0x80 + c % 64);
      ghost var written := a[p + i..p + k];
      a[p + i - 1] := 0x80 + c % 64;
      assert a[p + i - 1..p + k] == [a[p + i - 1]] + written;
      c := c / 64;
      i := i - 1;
    }
    NoneLeft(c);
  }

  lemma LastOfPrefix(tail: seq<Byte>, i: nat, before: seq<Byte>, last: Byte)
    requires 1 <= i <= |tail| && tail[..i] == before + [last]
    ensures tail[..i - 1] == before && tail[i - 1..] == [last] + tail[i..]
  {
    assert tail[..i][..i - 1] == before && tail[..i][i - 1] == last;
  }

  lemma TwoBytes(c: nat)
    requires 0x80 <= c < 0x800
    ensures Encode(c) == [0xC0 + c / 64, 0x80 + c % 64]
  {
    assert Top(c, 1) == c / 64;
    assert Continuations(c, 1) == [0x80 + c % 64];
  }

  lemma NextContinuation(c: nat, i: nat)
    requires i >= 1
    ensures Continuations(c, i) == Continuations(c / 64, i - 1) + [0x80 + c % 64]
    ensures Top(c, i) == Top(c / 64, i - 1)
  {
  }

  lemma NoneLeft(c: nat)
    ensures Top(c, 0) == c
  {
  }

  // ---- round trips

  function EncodeAll(codes: seq<nat>): seq<Byte>
    requires forall i :: 0 <= i < |codes| ==> codes[i] <= MAX_CODE
  {
    if codes == [] then [] else Encode(codes[0]) + EncodeAll(codes[1..])
  }

  // reading from one end of the text to the other gives `codes`
  ghost predicate ReadsAs(s: seq<Byte>, codes: seq<nat>)
    decreases |codes|
  {
    if codes == [] then s == []
    else exists n :: 0 < n <= |s| && IsRead(s, codes[0], n) && ReadsAs(s[n..], codes[1..])
  }

  // any code points that are not replaced, written one after the other, are read back
  lemma {:induction false} RoundTrip(codes: seq<nat>)
    requires forall i :: 0 <= i < |codes| ==> codes[i] <= MAX_CODE && !IsReplaced(codes[i])
    ensures ReadsAs(EncodeAll(codes), codes)
    decreases |codes|
  {
    hide Encode, IsRead;
    if codes != [] {
      var c, s := codes[0], EncodeAll(codes);
      var n := SizeOf(c);
      RoundTrip(codes[1..]);
      assert s[..n] == Encode(c) && s[n..] == EncodeAll(codes[1..]);
      BeginningIsRead(s, c);
    }
  }

  lemma BeginningIsRead(s: seq<Byte>, c: nat)
    requires Begins(s, c)
    ensures IsRead(s, c, SizeOf(c))
  {
    hide Encode, Taken;
    EncodedTaken(s, c);
    forall d | Begins(s, d) ensures d == c {
      OneBeginning(s, c, d);
    }
  }

  lemma OneBeginning(s: seq<Byte>, c: nat, d: nat)
    requires Begins(s, c) && Begins(s, d)
    ensures c == d
  {
    hide Encode, Taken;
    EncodedTaken(s, c);
    EncodedTaken(s, d);
    if c >= 0x80 && d >= 0x80 {
      BeginsIsValue(s, SizeOf(c), c);
      BeginsIsValue(s, SizeOf(c), d);
    } else if c < 0x80 {
      FirstByteIsAscii(s, c);
    } else {
      FirstByteIsAscii(s, d);
    }
    if c < 0x80 && d < 0x80 {
      FirstByteIsAscii(s, d);
    }
  }

  // one code point comes back as itself exactly when it fits 31 bits and is not replaced
  lemma CodeComesBack(code: nat, c: nat, n: nat)
    requires IsRead(Encode(if code > MAX_CODE then REPLACEMENT else code), c, n)
    ensures c == code <==> code <= MAX_CODE && !IsReplaced(code)
  {
    hide Encode, Taken;
    var written := if code > MAX_CODE then REPLACEMENT else code;
    var s := Encode(written);
    assert s[..SizeOf(written)] == s;
    if !IsReplaced(written) {
      assert Begins(s, written);
    }
  }
}
