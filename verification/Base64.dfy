/** URL-safe base64 on top of the standard encoding (sections 3.2, 4 and 5 of RFC 4648). */
module Base64 {
  import opened Arithmetic
  import opened Wrappers

  type Sextet = i: int | 0 <= i < 64

  // ---- the standard encoding ---------------------------------------------------------

  function CharOf(i: Sextet): (c: char) {
    if i < 26 then ('A' as int + i) as char
    else if i < 52 then ('a' as int + (i - 26)) as char
    else if i < 62 then ('0' as int + (i - 52)) as char
    else if i == 62 then '+' else '/'
  }

  function ValueOf(c: char): (r: Result<Sextet>) {
    if 'A' <= c <= 'Z' then Ok(c as int - 'A' as int)
    else if 'a' <= c <= 'z' then Ok(c as int - 'a' as int + 26)
    else if '0' <= c <= '9' then Ok(c as int - '0' as int + 52)
    else if c == '+' then Ok(62) else if c == '/' then Ok(63) else Err
  }

  /** The sextets of one group of up to three bytes, most significant first. */
  function Sextets(s: seq<Byte>): (r: seq<Sextet>)
    requires 1 <= |s| <= 3
    ensures |r| == |s| + 1
  {
    if |s| == 1 then [s[0] / 4, s[0] % 4 * 16]
    else if |s| == 2 then [s[0] / 4, s[0] % 4 * 16 + s[1] / 16, s[1] % 16 * 4]
    else [s[0] / 4, s[0] % 4 * 16 + s[1] / 16, s[1] % 16 * 4 + s[2] / 64, s[2] % 64]
  }

  /** The bytes of one group of two to four sextets. */
  function Bytes(g: seq<Sextet>): (r: seq<Byte>)
    requires 2 <= |g| <= 4
    ensures |r| == |g| - 1
  {
    var first: Byte := g[0] as int * 4 + g[1] as int / 16;
    if |g| == 2 then [first]
    else
      var second: Byte := g[1] as int % 16 * 16 + g[2] as int / 4;
      if |g| == 3 then [first, second]
      else
        var third: Byte := g[2] as int % 4 * 64 + g[3] as int;
        [first, second, third]
  }

  lemma FirstByte(x: int, rest: int)
    requires 0 <= x < 256 && 0 <= rest < 16
    ensures x / 4 * 4 + (x % 4 * 16 + rest) / 16 == x && (x % 4 * 16 + rest) % 16 == rest
  {
  }

  lemma SecondByte(y: int, rest: int)
    requires 0 <= y < 256 && 0 <= rest < 4
    ensures y / 16 * 16 + (y % 16 * 4 + rest) / 4 == y && (y % 16 * 4 + rest) % 4 == rest
  {
  }

  lemma GroupRoundTrip(s: seq<Byte>)
    requires 1 <= |s| <= 3
    ensures Bytes(Sextets(s)) == s
  {
    FirstByte(s[0], if |s| == 1 then 0 else s[1] / 16);
    if |s| >= 2 {
      SecondByte(s[1], if |s| == 2 then 0 else s[2] / 64);
    }
  }

  function Chars(g: seq<Sextet>): (r: string)
    ensures |r| == |g| && forall i | 0 <= i < |g| :: r[i] == CharOf(g[i])
  {
    seq(|g|, i requires 0 <= i < |g| => CharOf(g[i]))
  }

  /** Padding of the last group. */
  function Pad(n: nat): (r: string) {
    if n % 3 == 1 then "==" else if n % 3 == 2 then "=" else ""
  }

  /** The encoding without its padding. */
  function Body(s: seq<Byte>): (r: string) {
    if |s| == 0 then "" else Chars(Sextets(Head(s))) + Body(Tail(s))
  }

  /** The first group of up to three bytes, and the rest. */
  function Head(s: seq<Byte>): (r: seq<Byte>)
    requires |s| > 0
    ensures |r| == Min(|s|, 3)
  {
    s[..Min(|s|, 3)]
  }

  function Tail(s: seq<Byte>): (r: seq<Byte>)
    requires |s| > 0
    ensures |r| == |s| - Min(|s|, 3) && s == Head(s) + r
  {
    s[Min(|s|, 3)..]
  }

  /** `llvm::encodeBase64`. */
  function Encode(s: seq<Byte>): (r: string) {
    Body(s) + Pad(|s|)
  }

  function Values(t: string): (r: Result<seq<Sextet>>)
    ensures r.Ok? ==> |r.value| == |t|
  {
    if |t| == 0 then Ok([])
    else match (ValueOf(t[0]), Values(t[1..])) {
      case (Ok(v), Ok(vs)) => Ok([v] + vs)
      case _ => Err
    }
  }

  /** A group of four characters; only the last one of an input may be padded. */
  function DecodeGroup(t: string, last: bool): (r: Result<seq<Byte>>)
    requires |t| == 4
  {
    var n := if last && t[3] == '=' then if t[2] == '=' then 2 else 3 else 4;
    match Values(t[..n])
    case Ok(g) => Ok(Bytes(g))
    case Err => Err
  }

  /** `llvm::decodeBase64`. */
  function Decode(t: string): (r: Result<seq<Byte>>) {
    if |t| == 0 then Ok([])
    else if |t| < 4 then Err
    else match (DecodeGroup(t[..4], |t| == 4), Decode(t[4..])) {
      case (Ok(a), Ok(b)) => Ok(a + b)
      case _ => Err
    }
  }

  lemma {:induction false} ValuesOfChars(g: seq<Sextet>)
    ensures Values(Chars(g)) == Ok(g)
  {
    if |g| == 0 {
    } else {
      ValuesOfChars(g[1..]);
      assert Chars(g)[1..] == Chars(g[1..]);
      assert [g[0]] + g[1..] == g;
    }
  }

  /** A full group anywhere, or a last group of any size, decodes to its bytes. */
  lemma OneGroup(s: seq<Byte>, last: bool)
    requires 1 <= |s| <= 3 && (last || |s| == 3)
    ensures var t := Chars(Sextets(s)) + Pad(|s|); |t| == 4 && DecodeGroup(t, last) == Ok(s)
  {
    var g := Sextets(s);
    var t := Chars(g) + Pad(|s|);
    GroupRoundTrip(s);
    ValuesOfChars(g);
    assert t[..|g|] == Chars(g);
  }

  lemma DecodeAppend(group: string, rest: string, a: seq<Byte>, b: seq<Byte>)
    requires |group| == 4 && DecodeGroup(group, |rest| == 0) == Ok(a) && Decode(rest) == Ok(b)
    ensures Decode(group + rest) == Ok(a + b)
  {
    assert (group + rest)[..4] == group && (group + rest)[4..] == rest;
  }

  lemma EncodeSplits(s: seq<Byte>)
    requires |s| > 0
    ensures |s| <= 3 ==> Encode(s) == Chars(Sextets(Head(s))) + Pad(|Head(s)|)
    ensures |s| > 3 ==>
              && Encode(s) == (Chars(Sextets(Head(s))) + Pad(|Head(s)|)) + Encode(Tail(s))
              && |Encode(Tail(s))| > 0
  {
    hide Chars, Sextets;
    assert Pad(3) == "";
    if |s| <= 3 {
      assert Head(s) == s && Body(Tail(s)) == "";
    } else {
      var first := Chars(Sextets(Head(s)));
      assert Pad(|s|) == Pad(|Tail(s)|) && first + Pad(3) == first;
      assert Encode(s) == first + (Body(Tail(s)) + Pad(|Tail(s)|));
      assert Body(Tail(s)) == Chars(Sextets(Head(Tail(s)))) + Body(Tail(Tail(s)));
    }
  }

  lemma {:induction false} StandardRoundTrip(s: seq<Byte>)
    ensures Decode(Encode(s)) == Ok(s)
  {
    if |s| == 0 {
    } else {
      hide Sextets, Encode, DecodeGroup, Decode, Chars, Pad;
      var group := Chars(Sextets(Head(s))) + Pad(|Head(s)|);
      EncodeSplits(s);
      OneGroup(Head(s), |s| <= 3);
      var rest := if |s| <= 3 then "" else Encode(Tail(s));
      if |s| <= 3 {
        EmptyDecodes();
      } else {
        StandardRoundTrip(Tail(s));
      }
      DecodeAppend(group, rest, Head(s), Tail(s));
      assert Encode(s) == group + rest;
    }
  }

  lemma EmptyDecodes()
    ensures Decode("") == Ok([])
  {
  }

  // ---- the URL-safe form --------------------------------------------------------------

  /** Section 5 of RFC 4648: minus and underscore instead of plus and slash. */
  function UrlChar(i: Sextet): (c: char) {
    if i == 62 then '-' else if i == 63 then '_' else CharOf(i)
  }

  predicate InUrlAlphabet(c: char) {
    'A' <= c <= 'Z' || 'a' <= c <= 'z' || '0' <= c <= '9' || c == '-' || c == '_'
  }

  function UrlChars(g: seq<Sextet>): (r: string)
    ensures |r| == |g| && forall i | 0 <= i < |g| :: r[i] == UrlChar(g[i])
  {
    seq(|g|, i requires 0 <= i < |g| => UrlChar(g[i]))
  }

  /** The unpadded URL-safe encoding, defined directly. */
  function UrlBody(s: seq<Byte>): (r: string)
    ensures forall i | 0 <= i < |r| :: InUrlAlphabet(r[i])
    ensures |s| > 0 ==> |r| > 0
  {
    if |s| == 0 then "" else UrlChars(Sextets(Head(s))) + UrlBody(Tail(s))
  }

  function Replace(t: string, c: char, d: char): (r: string)
    ensures |r| == |t| && forall i | 0 <= i < |t| :: r[i] == if t[i] == c then d else t[i]
  {
    seq(|t|, i requires 0 <= i < |t| => if t[i] == c then d else t[i])
  }

  function ToUrl(t: string): (r: string)
    ensures |r| == |t|
  {
    Replace(Replace(t, '+', '-'), '/', '_')
  }

  function FromUrl(t: string): (r: string)
    ensures |r| == |t|
  {
    Replace(Replace(t, '-', '+'), '_', '/')
  }

  lemma GroupTranslates(g: seq<Sextet>)
    ensures ToUrl(Chars(g)) == UrlChars(g) && FromUrl(UrlChars(g)) == Chars(g)
  {
  }

  lemma TranslationSplits(a: string, b: string)
    ensures ToUrl(a + b) == ToUrl(a) + ToUrl(b) && FromUrl(a + b) == FromUrl(a) + FromUrl(b)
  {
  }

  /** Replacing characters of the standard body gives the URL-safe body, and back. */
  lemma {:induction false} BodyTranslates(s: seq<Byte>)
    ensures ToUrl(Body(s)) == UrlBody(s) && FromUrl(UrlBody(s)) == Body(s)
  {
    if |s| == 0 {
    } else {
      hide ToUrl, FromUrl, Sextets;
      BodyTranslates(Tail(s));
      var g := Sextets(Head(s));
      GroupTranslates(g);
      TranslationSplits(Chars(g), Body(Tail(s)));
      TranslationSplits(UrlChars(g), UrlBody(Tail(s)));
    }
  }

  lemma {:induction false} BodyLength(s: seq<Byte>)
    ensures |UrlBody(s)| == |s| / 3 * 4 + (if |s| % 3 == 0 then 0 else |s| % 3 + 1)
  {
    if |s| == 0 {
    } else {
      BodyLength(Tail(s));
    }
  }

  /** The padding `decodeURLSafeBase64` puts back. */
  function Repad(n: nat): (r: string) {
    if n % 4 == 0 then "" else seq(4 - n % 4, _ => '=')
  }

  function DecodeUrlSafe(t: string): (r: Result<seq<Byte>>) {
    Decode(FromUrl(t) + Repad(|t|))
  }

  /** Decoding undoes encoding, for every byte string. */
  lemma UrlRoundTrip(s: seq<Byte>)
    ensures DecodeUrlSafe(UrlBody(s)) == Ok(s)
  {
    hide Decode, FromUrl, UrlBody, Body;
    BodyTranslates(s);
    PaddingMatches(s);
    StandardRoundTrip(s);
  }

  lemma PaddingMatches(s: seq<Byte>)
    ensures Repad(|UrlBody(s)|) == Pad(|s|)
  {
    hide UrlBody;
    BodyLength(s);
    RepadIsPad(|s|);
  }

  lemma RepadIsPad(n: nat)
    ensures Repad(n / 3 * 4 + (if n % 3 == 0 then 0 else n % 3 + 1)) == Pad(n)
  {
    var q, r := n / 3, if n % 3 == 0 then 0 else n % 3 + 1;
    ModuloUnique(q * 4 + r, q, r, 4);
  }

  /** So distinct byte strings never share an encoding. */
  lemma UrlInjective(s: seq<Byte>, t: seq<Byte>)
    ensures UrlBody(s) == UrlBody(t) <==> s == t
  {
    hide UrlBody, DecodeUrlSafe;
    UrlRoundTrip(s);
    UrlRoundTrip(t);
  }

  /** `std::replace_if`, in place. */
  method ReplaceIn(t: array<char>, c: char, d: char)
    modifies t
    ensures t[..] == Replace(old(t[..]), c, d)
  {
    for i := 0 to t.Length
      invariant t[..i] == Replace(old(t[..]), c, d)[..i]
      invariant t[i..] == old(t[i..])
    {
      if t[i] == c {
        t[i] := d;
      }
    }
  }

  /** Replacing leaves the padding alone. */
  lemma PaddedBody(s: seq<Byte>)
    ensures ToUrl(Encode(s)) == UrlBody(s) + Pad(|s|)
  {
    hide UrlBody, Body, ToUrl;
    BodyTranslates(s);
    TranslationSplits(Body(s), Pad(|s|));
    PaddingStays(|s|);
  }

  lemma PaddingStays(n: nat)
    ensures ToUrl(Pad(n)) == Pad(n)
  {
    assert forall i | 0 <= i < |Pad(n)| :: Pad(n)[i] == '=';
  }

  /** The loop that pops padding: what remains has none, because the alphabet has no `=`. */
  method StripPadding(padded: string, ghost body: string, ghost pad: string) returns (out: string)
    requires padded == body + pad && |body| > 0 && |pad| <= 2
    requires forall i | 0 <= i < |body| :: body[i] != '='
    requires forall i | 0 <= i < |pad| :: pad[i] == '='
    ensures out == body
  {
    out := padded;
    for i := 0 to 3
      invariant i <= |pad| && out == body + pad[..|pad| - i]
    {
      if out[|out| - 1] != '=' {
        break;
      }
      assert i < |pad|;
      out := out[..|out| - 1];
    }
  }

  /** `encodeURLSafeBase64`: encode, replace in place, pop up to three padding characters. */
  method EncodeURLSafeBase64(s: seq<Byte>) returns (out: string)
    requires |s| > 0
    ensures out == UrlBody(s)
  {
    hide UrlBody, Encode;
    var std := Encode(s);
    var buf := new char[|std|](i requires 0 <= i < |std| => std[i]);
    assert buf[..] == std;
    ReplaceIn(buf, '+', '-');
    ReplaceIn(buf, '/', '_');
    PaddedBody(s);
    out := StripPadding(buf[..], UrlBody(s), Pad(|s|));
  }

  /** `decodeURLSafeBase64`: replace in place, append the padding, decode. */
  method DecodeURLSafeBase64(t: string) returns (r: Result<seq<Byte>>)
    ensures r == DecodeUrlSafe(t)
    ensures forall s | t == UrlBody(s) :: r == Ok(s)
  {
    var buf := new char[|t|](i requires 0 <= i < |t| => t[i]);
    assert buf[..] == t;
    ReplaceIn(buf, '-', '+');
    ReplaceIn(buf, '_', '/');
    var out := buf[..];
    var remainder := |t| % 4;
    if remainder != 0 {
      out := out + seq(4 - remainder, _ => '=');
    }
    assert out == FromUrl(t) + Repad(|t|);
    r := Decode(out);
    forall s | t == UrlBody(s) ensures r == Ok(s) {
      UrlRoundTrip(s);
    }
  }

  // ---- what the text means ------------------------------------------------------------

  const UPPER := "ABCDEFGHIJKLMNOPQRSTUVWXYZ"
  const LOWER := "abcdefghijklmnopqrstuvwxyz"

  /** Table 2 of RFC 4648. */
  const URL_TABLE := UPPER + LOWER + "0123456789" + "-_"

  lemma UpperAt(i: nat)
    requires i < 26
    ensures |UPPER| == 26 && UPPER[i] as int == 'A' as int + i
  {
  }

  lemma LowerAt(i: nat)
    requires i < 26
    ensures |LOWER| == 26 && LOWER[i] as int == 'a' as int + i
  {
  }

  /** The URL-safe alphabet is that table, and `InUrlAlphabet` says which characters are in it. */
  lemma UrlCharIsTabled(i: Sextet)
    ensures |URL_TABLE| == 64 && UrlChar(i) == URL_TABLE[i]
  {
    UpperAt(if i < 26 then i else 0);
    LowerAt(if 26 <= i < 52 then i - 26 else 0);
  }

  /** The bytes as one number, most significant first. */
  function Number(s: seq<Byte>): (n: nat) {
    if s == [] then 0 else Number(s[..|s| - 1]) * 256 + s[|s| - 1]
  }

  /** The sextets as one number, most significant first. */
  function Number64(g: seq<Sextet>): (n: nat) {
    if g == [] then 0 else Number64(g[..|g| - 1]) * 64 + g[|g| - 1]
  }

  function Power(b: nat, n: nat): (p: nat) {
    if n == 0 then 1 else Power(b, n - 1) * b
  }

  lemma {:induction false} NumberAppends(a: seq<Byte>, b: seq<Byte>)
    ensures Number(a + b) == Number(a) * Power(256, |b|) + Number(b)
  {
    if b == [] {
      assert a + b == a;
    } else {
      var n := |b| - 1;
      NumberAppends(a, b[..n]);
      assert (a + b)[..|a + b| - 1] == a + b[..n];
      Reassociate(Number(a), Power(256, n), 256);
    }
  }

  lemma {:induction false} Number64Appends(a: seq<Sextet>, b: seq<Sextet>)
    ensures Number64(a + b) == Number64(a) * Power(64, |b|) + Number64(b)
  {
    if b == [] {
      assert a + b == a;
    } else {
      var n := |b| - 1;
      Number64Appends(a, b[..n]);
      assert (a + b)[..|a + b| - 1] == a + b[..n];
      Reassociate(Number64(a), Power(64, n), 64);
    }
  }

  /** How many sextets `n` bytes take. */
  function SextetCount(n: nat): (c: nat) {
    n / 3 * 4 + if n % 3 == 0 then 0 else n % 3 + 1
  }

  /** The number `v` of `n` bytes followed by the zero bits that fill up its last sextet: none, four or two. */
  function Filled(v: nat, n: nat): (f: nat) {
    if n % 3 == 0 then v else if n % 3 == 1 then v * 16 else v * 4
  }

  lemma {:induction false} PowersMatch(n: nat)
    ensures Power(64, SextetCount(n)) == Filled(Power(256, n), n)
  {
    if n < 3 {
      assert Power(64, 0) == 1 && Power(64, 1) == 64 && Power(64, 2) == 4096 && Power(64, 3) == 262144;
      assert Power(256, 0) == 1 && Power(256, 1) == 256 && Power(256, 2) == 65536;
    } else {
      PowersMatch(n - 3);
      var c := SextetCount(n - 3);
      assert SextetCount(n) == c + 4;
      assert Power(64, c + 4) == Power(64, c) * 64 * 64 * 64 * 64 by {
        assert Power(64, c + 2) == Power(64, c) * 64 * 64;
      }
      assert Power(256, n) == Power(256, n - 3) * 256 * 256 * 256 by {
        assert Power(256, n - 1) == Power(256, n - 3) * 256 * 256;
      }
    }
  }

  lemma NumberNext(s: seq<Byte>, x: Byte)
    ensures Number(s + [x]) == Number(s) * 256 + x
  {
    assert (s + [x])[..|s|] == s;
  }

  lemma Number64Next(g: seq<Sextet>, x: Sextet)
    ensures Number64(g + [x]) == Number64(g) * 64 + x
  {
    assert (g + [x])[..|g|] == g;
  }

  lemma NumberEmpty()
    ensures Number([]) == 0
  {
  }

  lemma NumberOfGroup(s: seq<Byte>)
    requires 1 <= |s| <= 3
    ensures |s| == 1 ==> var a: int := s[0]; Number(s) == a
    ensures |s| == 2 ==> var a: int, b: int := s[0], s[1]; Number(s) == a * 256 + b
    ensures |s| == 3 ==> var a: int, b: int, c: int := s[0], s[1], s[2]; Number(s) == (a * 256 + b) * 256 + c
  {
    hide Number;
    NumberEmpty();
    NumberNext([], s[0]);
    assert [] + [s[0]] == s[..1];
    if |s| >= 2 {
      NumberNext(s[..1], s[1]);
      assert s[..1] + [s[1]] == s[..2];
    }
    if |s| == 3 {
      NumberNext(s[..2], s[2]);
      assert s[..2] + [s[2]] == s;
    } else {
      assert s == s[..|s|];
    }
  }

  lemma Number64OfGroup(g: seq<Sextet>)
    requires 2 <= |g| <= 4
    ensures |g| == 2 ==> var a: int, b: int := g[0], g[1]; Number64(g) == a * 64 + b
    ensures |g| == 3 ==> var a: int, b: int, c: int := g[0], g[1], g[2]; Number64(g) == (a * 64 + b) * 64 + c
    ensures |g| == 4 ==>
              var a: int, b: int, c: int, d: int := g[0], g[1], g[2], g[3];
              Number64(g) == ((a * 64 + b) * 64 + c) * 64 + d
  {
    hide Number64;
    Number64Empty();
    Number64Next([], g[0]);
    assert [] + [g[0]] == g[..1];
    Number64Next(g[..1], g[1]);
    assert g[..1] + [g[1]] == g[..2];
    if |g| >= 3 {
      Number64Next(g[..2], g[2]);
      assert g[..2] + [g[2]] == g[..3];
    }
    if |g| == 4 {
      Number64Next(g[..3], g[3]);
      assert g[..3] + [g[3]] == g[..4];
    }
    assert g == g[..|g|];
  }

  lemma Number64Empty()
    ensures Number64([]) == 0
  {
  }

  lemma SplitBytes(a: int, b: int, c: int)
    ensures a / 4 * 64 + a % 4 * 16 == a * 16
    ensures (a / 4 * 64 + (a % 4 * 16 + b / 16)) * 64 + b % 16 * 4 == (a * 256 + b) * 4
    ensures ((a / 4 * 64 + (a % 4 * 16 + b / 16)) * 64 + (b % 16 * 4 + c / 64)) * 64 + c % 64
            == (a * 256 + b) * 256 + c
  {
  }

  lemma GroupNumber(s: seq<Byte>)
    requires 1 <= |s| <= 3
    ensures Number64(Sextets(s)) == Filled(Number(s), |s|)
  {
    hide Number, Number64;
    var g := Sextets(s);
    NumberOfGroup(s);
    Number64OfGroup(g);
    var a: int := s[0];
    if |s| == 1 {
      SplitBytes(a, 0, 0);
    } else if |s| == 2 {
      var b: int := s[1];
      SplitBytes(a, b, 0);
      assert g[0] == a / 4 && g[1] == a % 4 * 16 + b / 16 && g[2] == b % 16 * 4;
      hide Sextets;
    } else {
      var b: int, c: int := s[1], s[2];
      SplitBytes(a, b, c);
      assert g[0] == a / 4 && g[1] == a % 4 * 16 + b / 16 && g[2] == b % 16 * 4 + c / 64 && g[3] == c % 64;
      hide Sextets;
    }
  }

  /** The sextets of all groups. */
  function AllSextets(s: seq<Byte>): (g: seq<Sextet>) {
    if |s| == 0 then [] else Sextets(Head(s)) + AllSextets(Tail(s))
  }

  lemma {:induction false} BodyIsSextets(s: seq<Byte>)
    ensures UrlBody(s) == UrlChars(AllSextets(s)) && |AllSextets(s)| == SextetCount(|s|)
  {
    if |s| == 0 {
    } else {
      hide Sextets, UrlChar;
      BodyIsSextets(Tail(s));
    }
  }

  lemma {:induction false} AllSextetsNumber(s: seq<Byte>)
    ensures Number64(AllSextets(s)) == Filled(Number(s), |s|)
  {
    hide Sextets, Number, Number64, Power, Filled;
    if |s| == 0 {
      EmptyNumbers();
    } else {
      var head, tail := Head(s), Tail(s);
      assert AllSextets(s) == Sextets(head) + AllSextets(tail);
      GroupNumber(head);
      if |s| <= 3 {
        assert tail == [] && AllSextets(tail) == [] && head == s;
        assert AllSextets(s) == Sextets(s);
      } else {
        AllSextetsNumber(tail);
        BodyIsSextets(tail);
        hide AllSextets, UrlBody, Head, Tail;
        NumberAppends(head, tail);
        Number64Appends(Sextets(head), AllSextets(tail));
        PowersMatch(|tail|);
        FullGroup(Number(head));
        FilledAdds(Number(head), Power(256, |tail|), Number(tail), |tail|);
      }
    }
  }

  lemma EmptyNumbers()
    ensures Number64([]) == Filled(Number([]), 0)
  {
  }

  lemma FullGroup(v: nat)
    ensures Filled(v, 3) == v
  {
  }

  lemma FilledAdds(head: nat, shift: nat, tail: nat, n: nat)
    ensures head * Filled(shift, n) + Filled(tail, n) == Filled(head * shift + tail, n + 3)
  {
    Reassociate(head, shift, 16);
    Reassociate(head, shift, 4);
  }

  /**
    What the URL-safe text is: digits in base 64, written with the table of RFC 4648. They are the fewest that hold
    the bits of the bytes, and read as one number they are the bytes read as one number, filled up with zero bits.
   */
  lemma UrlMeaning(s: seq<Byte>) returns (g: seq<Sextet>)
    ensures |UrlBody(s)| == |g| == (8 * |s| + 5) / 6
    ensures forall i | 0 <= i < |g| :: g[i] < |URL_TABLE| && UrlBody(s)[i] == URL_TABLE[g[i]]
    ensures Number64(g) == Filled(Number(s), |s|)
  {
    g := AllSextets(s);
    BodyIsSextets(s);
    AllSextetsNumber(s);
    hide UrlBody, Number, Number64, AllSextets, UrlChar;
    forall i | 0 <= i < |g| ensures g[i] < |URL_TABLE| && UrlBody(s)[i] == URL_TABLE[g[i]] {
      UrlCharIsTabled(g[i]);
    }
  }

  // ---- which texts decode ---------------------------------------------------------------

  predicate InAlphabet(c: char) {
    'A' <= c <= 'Z' || 'a' <= c <= 'z' || '0' <= c <= '9' || c == '+' || c == '/'
  }

  /** A character has a value exactly when it is in the alphabet, and it is that value's character. */
  lemma ValueIff(c: char, v: Sextet)
    ensures ValueOf(c) == Ok(v) <==> c == CharOf(v)
    ensures ValueOf(c).Ok? <==> InAlphabet(c)
  {
  }

  lemma {:induction false} ValuesIff(t: string)
    ensures Values(t).Ok? <==> forall i | 0 <= i < |t| :: InAlphabet(t[i])
  {
    if |t| == 0 {
    } else {
      ValuesIff(t[1..]);
      ValueIff(t[0], 0);
      assert forall i | 0 < i < |t| :: t[i] == t[1..][i - 1];
    }
  }

  /** The padding characters at the end of the text. */
  function Padding(t: string): (n: nat)
    ensures n <= |t|
  {
    if |t| < 4 || t[|t| - 1] != '=' then 0 else if t[|t| - 2] != '=' then 1 else 2
  }

  lemma GroupIff(t: string, last: bool)
    requires |t| == 4
    ensures DecodeGroup(t, last).Ok? <==>
            forall i | 0 <= i < (if last then 4 - Padding(t) else 4) :: InAlphabet(t[i])
  {
    hide InAlphabet, Values;
    var n := if last then 4 - Padding(t) else 4;
    ValuesIff(t[..n]);
  }

  lemma PaddingIsLast(t: string)
    requires |t| > 4 && |t| % 4 == 0
    ensures Padding(t) == Padding(t[4..])
  {
  }

  lemma AlphabetSplits(t: string, n: nat)
    requires 4 <= n <= |t|
    ensures (forall i | 0 <= i < n :: InAlphabet(t[i])) <==>
            (forall i | 0 <= i < 4 :: InAlphabet(t[..4][i])) && (forall i | 0 <= i < n - 4 :: InAlphabet(t[4..][i]))
  {
    hide InAlphabet;
    assert forall i | 0 <= i < 4 :: t[i] == t[..4][i];
    assert forall i | 4 <= i < |t| :: t[i] == t[4..][i - 4];
  }

  /** The standard decoder accepts whole groups of the alphabet's characters, the last one with up to two pads. */
  lemma {:induction false} DecodesIff(t: string)
    ensures Decode(t).Ok? <==> |t| % 4 == 0 && forall i | 0 <= i < |t| - Padding(t) :: InAlphabet(t[i])
  {
    if |t| < 4 {
    } else {
      hide InAlphabet, DecodeGroup, Padding;
      var group, rest := t[..4], t[4..];
      GroupIff(group, |t| == 4);
      if |t| == 4 {
        assert group == t && Decode(rest) == Ok([]);
      } else {
        DecodesIff(rest);
        if |t| % 4 == 0 {
          PaddingIsLast(t);
          AlphabetSplits(t, |t| - Padding(t));
        }
      }
    }
  }
}
