/** The text a WAM buffer is uploaded as: standard base64 with padding. */
module Base64 {
  import opened Values
  import opened Wam
  import Doubles

  /** The alphabet: A-Z, a-z, 0-9, plus, slash. */
  function Symbol(n: nat): char
    requires n < 64
  {
    if n < 26 then (n + 'A' as int) as char
    else if n < 52 then (n - 26 + 'a' as int) as char
    else if n < 62 then (n - 52 + '0' as int) as char
    else if n == 62 then '+'
    else '/'
  }

  /** The 24 bits of a chunk, missing bytes zero. */
  function Bits24(chunk: seq<Byte>): nat
    requires 1 <= |chunk| <= 3
  {
    var a: nat, b: nat, c: nat := chunk[0], if |chunk| > 1 then chunk[1] else 0, if |chunk| > 2 then chunk[2] else 0;
    a * 65536 + b * 256 + c
  }

  /** Four digits for one, two or three bytes. */
  function Group(chunk: seq<Byte>): string
    requires 1 <= |chunk| <= 3
  {
    var n := Bits24(chunk);
    [Symbol(n / 262144 % 64), Symbol(n / 4096 % 64),
     if |chunk| > 1 then Symbol(n / 64 % 64) else '=',
     if |chunk| > 2 then Symbol(n % 64) else '=']
  }

  function Encode(bytes: seq<Byte>): string {
    if bytes == [] then []
    else if |bytes| <= 3 then Group(bytes)
    else Group(bytes[..3]) + Encode(bytes[3..])
  }

  // ---------------------------------------------------------------- reading back

  function Value(c: char): Option<nat> {
    if 'A' <= c <= 'Z' then Some(c as nat - 'A' as nat)
    else if 'a' <= c <= 'z' then Some(c as nat - 'a' as nat + 26)
    else if '0' <= c <= '9' then Some(c as nat - '0' as nat + 52)
    else if c == '+' then Some(62)
    else if c == '/' then Some(63)
    else None
  }

  function First(a: nat, b: nat): nat { a * 4 + b / 16 }
  function Second(b: nat, c: nat): nat { b % 16 * 16 + c / 4 }
  function Third(c: nat, d: nat): nat { c % 4 * 64 + d }

  function AsByte(n: nat): Option<Byte> {
    if n < 256 then Some(n) else None
  }

  function Ungroup(s: string): Option<seq<Byte>>
    requires |s| == 4
  {
    match (Value(s[0]), Value(s[1]))
    case (Some(a), Some(b)) =>
      (match AsByte(First(a, b))
       case None => None
       case Some(x) =>
         if s[2] == '=' then (if s[3] == '=' then Some([x]) else None)
         else match Value(s[2])
           case None => None
           case Some(c) =>
             match AsByte(Second(b, c))
             case None => None
             case Some(y) =>
               if s[3] == '=' then Some([x, y])
               else match Value(s[3])
                 case None => None
                 case Some(d) => match AsByte(Third(c, d)) case Some(z) => Some([x, y, z]) case None => None)
    case _ => None
  }

  function Decode(s: string): Option<seq<Byte>> {
    if s == "" then Some([])
    else if |s| < 4 then None
    else match (Ungroup(s[..4]), Decode(s[4..]))
      case (Some(a), Some(b)) => Some(a + b)
      case _ => None
  }

  lemma SymbolInverse(n: nat)
    requires n < 64
    ensures Value(Symbol(n)) == Some(n) && Symbol(n) != '='
  {}

  lemma Quotient(n: nat, d: nat, q: nat, r: nat)
    requires d > 0 && r < d && n == q * d + r
    ensures n / d == q && n % d == r
  {
    var k := n / d;
    assert n == k * d + n % d;
    assert (k + 1) * d == k * d + d && (q + 1) * d == q * d + d;
    if k < q { Doubles.MulLess(k + 1, q, d); }
    if k > q { Doubles.MulLess(q + 1, k, d); }
  }

  lemma Sixths(a: Byte, b: Byte, c: Byte)
    ensures var n: nat := a * 65536 + b * 256 + c;
      n / 262144 % 64 == a / 4 && n / 4096 % 64 == a % 4 * 16 + b / 16 && n / 64 % 64 == b % 16 * 4 + c / 64 && n % 64 == c % 64
  {
    var n: nat := a * 65536 + b * 256 + c;
    var p, q, r: nat, s: nat, t, u := a / 4, a % 4, b / 16, b % 16, c / 64, c % 64;
    assert a == 4 * p + q && b == 16 * r + s && c == 64 * t + u;
    Quotient(n, 262144, p, q * 65536 + b * 256 + c);
    Quotient(n, 4096, p * 64 + (q * 16 + r), s * 256 + c);
    Quotient(n, 64, (p * 64 + q * 16 + r) * 64 + (s * 4 + t), u);
    Quotient(p, 64, 0, p);
    Quotient(p * 64 + (q * 16 + r), 64, p, q * 16 + r);
    Quotient((p * 64 + q * 16 + r) * 64 + (s * 4 + t), 64, p * 64 + q * 16 + r, s * 4 + t);
  }

  lemma Reassembled(a: Byte, b: Byte, c: Byte)
    ensures First(a / 4, a % 4 * 16 + b / 16) == a
    ensures Second(a % 4 * 16 + b / 16, b % 16 * 4 + c / 64) == b
    ensures Third(b % 16 * 4 + c / 64, c % 64) == c
  {}

  lemma GroupParts(chunk: seq<Byte>)
    requires 1 <= |chunk| <= 3
    ensures var a, b, c := chunk[0], if |chunk| > 1 then chunk[1] else 0, if |chunk| > 2 then chunk[2] else 0;
      var s := Group(chunk);
      |s| == 4 && s[0] == Symbol(a / 4) && s[1] == Symbol(a % 4 * 16 + b / 16) &&
      s[2] == (if |chunk| > 1 then Symbol(b % 16 * 4 + c / 64) else '=') && s[3] == (if |chunk| > 2 then Symbol(c % 64) else '=')
  {
    Sixths(chunk[0], if |chunk| > 1 then chunk[1] else 0, if |chunk| > 2 then chunk[2] else 0);
    hide Symbol;
  }

  /** Reading a group whose digits are known. */
  lemma UngroupAt(s: string, a: nat, b: nat, c: nat, d: nat, chunk: seq<Byte>)
    requires |s| == 4 && 1 <= |chunk| <= 3
    requires Value(s[0]) == Some(a) && Value(s[1]) == Some(b) && First(a, b) == chunk[0]
    requires if |chunk| > 1 then s[2] != '=' && Value(s[2]) == Some(c) && Second(b, c) == chunk[1] else s[2] == '='
    requires if |chunk| > 2 then s[3] != '=' && Value(s[3]) == Some(d) && Third(c, d) == chunk[2] else s[3] == '='
    ensures Ungroup(s) == Some(chunk)
  {
    hide Value, First, Second, Third;
    if |chunk| == 1 {
      assert chunk == [chunk[0]];
    } else if |chunk| == 2 {
      assert chunk == [chunk[0], chunk[1]];
    } else {
      assert chunk == [chunk[0], chunk[1], chunk[2]];
    }
  }

  lemma GroupInverse(chunk: seq<Byte>)
    requires 1 <= |chunk| <= 3
    ensures |Group(chunk)| == 4 && Ungroup(Group(chunk)) == Some(chunk)
  {
    var a, b, c := chunk[0], if |chunk| > 1 then chunk[1] else 0, if |chunk| > 2 then chunk[2] else 0;
    hide *;
    GroupParts(chunk);
    Reassembled(a, b, c);
    SymbolInverse(a / 4);
    SymbolInverse(a % 4 * 16 + b / 16);
    SymbolInverse(b % 16 * 4 + c / 64);
    SymbolInverse(c % 64);
    UngroupAt(Group(chunk), a / 4, a % 4 * 16 + b / 16, b % 16 * 4 + c / 64, c % 64, chunk);
  }

  lemma EncodeStep(bytes: seq<Byte>, chunk: seq<Byte>, rest: seq<Byte>)
    requires bytes == chunk + rest && 1 <= |chunk| <= 3 && (|chunk| == 3 || rest == [])
    ensures Encode(bytes) == Group(chunk) + Encode(rest)
  {
    hide Group;
    if rest == [] {
      assert bytes == chunk && Encode(rest) == [];
    } else {
      assert bytes[..3] == chunk && bytes[3..] == rest;
    }
  }

  lemma DecodeStep(front: string, rest: string, a: seq<Byte>, b: seq<Byte>)
    requires |front| == 4 && Ungroup(front) == Some(a) && Decode(rest) == Some(b)
    ensures Decode(front + rest) == Some(a + b)
  {
    hide Ungroup;
    assert (front + rest)[..4] == front && (front + rest)[4..] == rest;
  }

  /** The uploaded text gives back the buffer. */
  lemma {:induction false} RoundTrip(bytes: seq<Byte>)
    ensures Decode(Encode(bytes)) == Some(bytes)
    decreases |bytes|
  {
    if bytes == [] {
      assert Encode(bytes) == "";
    } else {
      hide *;
      var chunk := if |bytes| <= 3 then bytes else bytes[..3];
      var rest := bytes[|chunk|..];
      GroupInverse(chunk);
      RoundTrip(rest);
      assert chunk + rest == bytes;
      EncodeStep(bytes, chunk, rest);
      DecodeStep(Group(chunk), Encode(rest), chunk, rest);
    }
  }

  method ToBase64(bytes: seq<Byte>) returns (s: string)
    ensures s == Encode(bytes)
  {
    assert Encode([]) == "";
    hide *;
    s := "";
    var i := 0;
    assert bytes[0..] == bytes;
    while i < |bytes|
      invariant 0 <= i <= |bytes|
      invariant Encode(bytes) == s + Encode(bytes[i..])
      decreases |bytes| - i
    {
      var end := if i + 3 < |bytes| then i + 3 else |bytes|;
      var chunk := bytes[i..end];
      assert bytes[i..] == chunk + bytes[end..];
      EncodeStep(bytes[i..], chunk, bytes[end..]);
      s := s + Group(chunk);
      i := end;
    }
    assert bytes[i..] == [];
  }
}
