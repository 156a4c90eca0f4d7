/** The Base 64 encoding of section 4 of RFC 4648, as `btoa` produces it and a strict decoder reads it. */
module Base64 {
  import opened Prelude
  import opened Octets

  function Letter(n: nat): (c: char)
    requires n < 64
    ensures c != '='
  {
    if n < 26 then ('A' as int + n) as char
    else if n < 52 then ('a' as int + n - 26) as char
    else if n < 62 then ('0' as int + n - 52) as char
    else if n == 62 then '+' else '/'
  }

  function Sextet(c: char): (n: Option<nat>)
    ensures n.Some? ==> n.value < 64
  {
    if 'A' <= c <= 'Z' then Some(c as int - 'A' as int)
    else if 'a' <= c <= 'z' then Some(c as int - 'a' as int + 26)
    else if '0' <= c <= '9' then Some(c as int - '0' as int + 52)
    else if c == '+' then Some(62)
    else if c == '/' then Some(63)
    else None
  }

  lemma LettersAndSextets(n: nat, c: char)
    requires n < 64
    ensures Sextet(Letter(n)) == Some(n)
    ensures Sextet(c).Some? ==> Letter(Sextet(c).value) == c
  {
  }

  /** The alphabet of section 4 of RFC 4648. */
  lemma AlphabetMeans(n: nat)
    requires n < 64
    ensures Letter(n) == (CAPITALS + SMALL_LETTERS + DIGITS + "+/")[n]
  {
    if n < 26 { Capitals(n); }
    else if n < 52 { SmallLetters(n - 26); }
    else if n < 62 { Digits(n - 52); }
  }

  const CAPITALS := "ABCDEFGHIJKLMNOPQRSTUVWXYZ"
  const SMALL_LETTERS := "abcdefghijklmnopqrstuvwxyz"
  const DIGITS := "0123456789"

  lemma Capitals(n: nat)
    requires n < 26
    ensures |CAPITALS| == 26 && CAPITALS[n] as int == 'A' as int + n
  {
  }

  lemma SmallLetters(n: nat)
    requires n < 26
    ensures |SMALL_LETTERS| == 26 && SMALL_LETTERS[n] as int == 'a' as int + n
  {
  }

  lemma Digits(n: nat)
    requires n < 10
    ensures |DIGITS| == 10 && DIGITS[n] as int == '0' as int + n
  {
  }

  /** One to three bytes as four characters. */
  function EncodeGroup(g: Bytes): (s: string)
    requires 1 <= |g| <= 3
    ensures |s| == 4
  {
    var x := g[0] as nat;
    if |g| == 1 then [Letter(x / 4), Letter(x % 4 * 16), '=', '=']
    else
      var y := g[1] as nat;
      if |g| == 2 then [Letter(x / 4), Letter(x % 4 * 16 + y / 16), Letter(y % 16 * 4), '=']
      else
        var z := g[2] as nat;
        [Letter(x / 4), Letter(x % 4 * 16 + y / 16), Letter(y % 16 * 4 + z / 64), Letter(z % 64)]
  }

  function Encode(b: Bytes): string {
    if b == [] then ""
    else if |b| <= 3 then EncodeGroup(b)
    else EncodeGroup(b[..3]) + Encode(b[3..])
  }

  /** Four characters as one to three bytes; `None` unless they are canonical. */
  function DecodeGroup(s: string): (g: Option<Bytes>)
    requires |s| == 4
    ensures g.Some? ==> 1 <= |g.value| <= 3
  {
    var (a, b, c, d) := (Sextet(s[0]), Sextet(s[1]), Sextet(s[2]), Sextet(s[3]));
    if a.None? || b.None? then None
    else if s[2] == '=' && s[3] == '=' then
      if b.value % 16 != 0 then None else Some([(a.value * 4 + b.value / 16) as byte])
    else if c.None? then None
    else if s[3] == '=' then
      if c.value % 4 != 0 then None
      else Some([(a.value * 4 + b.value / 16) as byte, (b.value % 16 * 16 + c.value / 4) as byte])
    else if d.None? then None
    else Some([(a.value * 4 + b.value / 16) as byte, (b.value % 16 * 16 + c.value / 4) as byte,
               (c.value % 4 * 64 + d.value) as byte])
  }

  /** Only the last group may stand for fewer than three bytes. */
  function Decode(s: string): Option<Bytes> {
    if s == "" then Some([])
    else if |s| < 4 then None
    else
      var group := DecodeGroup(s[..4]);
      if group.None? || (|group.value| < 3 && |s| > 4) then None
      else
        var rest := Decode(s[4..]);
        if rest.None? then None else Some(group.value + rest.value)
  }

  lemma BytesOfSextets(x: nat, y: nat, z: nat)
    requires x < 256 && y < 256 && z < 256
    ensures var (a, b, c, d) := (x / 4, x % 4 * 16 + y / 16, y % 16 * 4 + z / 64, z % 64);
            && a < 64 && b < 64 && c < 64 && d < 64
            && a * 4 + b / 16 == x && b % 16 * 16 + c / 4 == y && c % 4 * 64 + d == z
  {
  }

  lemma SextetsOfLetters(a: nat, b: nat, c: nat, d: nat)
    requires a < 64 && b < 64 && c < 64 && d < 64
    ensures Sextet(Letter(a)) == Some(a) && Sextet(Letter(b)) == Some(b)
    ensures Sextet(Letter(c)) == Some(c) && Sextet(Letter(d)) == Some(d)
  {
  }

  lemma LettersDecode(a: nat, b: nat, c: nat, d: nat, x: byte, y: byte, z: byte)
    requires a < 64 && b < 64 && c < 64 && d < 64
    requires a * 4 + b / 16 == x as nat && b % 16 * 16 + c / 4 == y as nat && c % 4 * 64 + d == z as nat
    ensures DecodeGroup([Letter(a), Letter(b), Letter(c), Letter(d)]) == Some([x, y, z])
  {
    SextetsOfLetters(a, b, c, d);
  }

  lemma LettersOfGroup(x: byte, y: byte, z: byte) returns (a: nat, b: nat, c: nat, d: nat)
    ensures a < 64 && b < 64 && c < 64 && d < 64
    ensures a * 4 + b / 16 == x as nat && b % 16 * 16 + c / 4 == y as nat && c % 4 * 64 + d == z as nat
    ensures EncodeGroup([x, y, z]) == [Letter(a), Letter(b), Letter(c), Letter(d)]
  {
    var (k, m, n) := (x as nat, y as nat, z as nat);
    BytesOfSextets(k, m, n);
    a, b, c, d := k / 4, k % 4 * 16 + m / 16, m % 16 * 4 + n / 64, n % 64;
  }

  lemma GroupOfThree(x: byte, y: byte, z: byte)
    ensures DecodeGroup(EncodeGroup([x, y, z])) == Some([x, y, z])
  {
    var a, b, c, d := LettersOfGroup(x, y, z);
    LettersDecode(a, b, c, d, x, y, z);
  }

  lemma GroupOfTwo(x: byte, y: byte)
    ensures DecodeGroup(EncodeGroup([x, y])) == Some([x, y])
  {
    var (k, m) := (x as nat, y as nat);
    BytesOfSextets(k, m, 0);
    SextetsOfLetters(k / 4, k % 4 * 16 + m / 16, m % 16 * 4, 0);
  }

  lemma GroupOfOne(x: byte)
    ensures DecodeGroup(EncodeGroup([x])) == Some([x])
  {
    LettersAndSextets(x as nat / 4, 'A');
    LettersAndSextets(x as nat % 4 * 16, 'A');
  }

  lemma GroupRoundTrip(g: Bytes)
    requires 1 <= |g| <= 3
    ensures DecodeGroup(EncodeGroup(g)) == Some(g)
  {
    if |g| == 1 {
      GroupOfOne(g[0]);
      assert g == [g[0]];
    } else if |g| == 2 {
      GroupOfTwo(g[0], g[1]);
      assert g == [g[0], g[1]];
    } else {
      GroupOfThree(g[0], g[1], g[2]);
      assert g == [g[0], g[1], g[2]];
    }
  }

  /** The first group of an encoded text and what it stands for. */
  lemma FirstGroup(b: Bytes) returns (head: Bytes, tail: Bytes, group: string)
    requires b != []
    ensures b == head + tail && head != [] && (tail != [] ==> |head| == 3)
    ensures |group| == 4 && Encode(b) == group + Encode(tail) && DecodeGroup(group) == Some(head)
  {
    head := if |b| <= 3 then b else b[..3];
    tail := if |b| <= 3 then [] else b[3..];
    group := EncodeGroup(head);
    GroupRoundTrip(head);
    assert |b| <= 3 ==> group + "" == group;
  }

  lemma DecodeFirst(group: string, rest: string, head: Bytes, tail: Bytes)
    requires |group| == 4 && DecodeGroup(group) == Some(head) && Decode(rest) == Some(tail)
    requires |head| < 3 ==> rest == ""
    ensures Decode(group + rest) == Some(head + tail)
  {
    assert (group + rest)[..4] == group && (group + rest)[4..] == rest;
  }

  /** Which number the characters of a text stand for, read in base 64. */
  function InBase64(s: string): Option<nat> {
    if s == "" then Some(0)
    else
      var front, last := InBase64(s[..|s| - 1]), Sextet(s[|s| - 1]);
      if front.None? || last.None? then None else Some(64 * front.value + last.value)
  }

  lemma TwoInBase64(s: string)
    requires |s| == 2 && Sextet(s[0]).Some? && Sextet(s[1]).Some?
    ensures InBase64(s) == Some(64 * Sextet(s[0]).value + Sextet(s[1]).value)
  {
    var t := s[..1];
    assert t[..|t| - 1] == "" && t[|t| - 1] == s[0] && s[..|s| - 1] == t;
    assert InBase64("") == Some(0);
    assert InBase64(t) == Some(Sextet(s[0]).value);
  }

  /**
   What a group encodes: its characters, read in base 64, are its bytes, read in base
   256, with as many zero bits behind as fill the last character.
   */
  lemma GroupIsANumber(x: byte, y: byte, z: byte)
    ensures InBase64(EncodeGroup([x, y, z])) == Some(x as nat * 65536 + y as nat * 256 + z as nat)
    ensures InBase64(EncodeGroup([x, y])[..3]) == Some((x as nat * 256 + y as nat) * 4) && EncodeGroup([x, y])[3] == '='
    ensures InBase64(EncodeGroup([x])[..2]) == Some(x as nat * 16) && EncodeGroup([x])[2..] == "=="
  {
    ThreeIsANumber(x, y, z);
    TwoIsANumber(x, y);
    OneIsANumber(x);
  }

  lemma NumberOf(a: nat, b: nat, c: nat, d: nat)
    requires a < 64 && b < 64 && c < 64 && d < 64
    ensures InBase64([Letter(a), Letter(b)]) == Some(a * 64 + b)
    ensures InBase64([Letter(a), Letter(b), Letter(c)]) == Some(a * 4096 + b * 64 + c)
    ensures InBase64([Letter(a), Letter(b), Letter(c), Letter(d)]) == Some(a * 262144 + b * 4096 + c * 64 + d)
  {
    SextetsOfLetters(a, b, c, d);
    TwoInBase64([Letter(a), Letter(b)]);
    assert [Letter(a), Letter(b), Letter(c)][..2] == [Letter(a), Letter(b)];
    assert [Letter(a), Letter(b), Letter(c), Letter(d)][..3] == [Letter(a), Letter(b), Letter(c)];
  }

  lemma ThreeIsANumber(x: byte, y: byte, z: byte)
    ensures InBase64(EncodeGroup([x, y, z])) == Some(x as nat * 65536 + y as nat * 256 + z as nat)
  {
    var a, b, c, d := LettersOfGroup(x, y, z);
    NumberOf(a, b, c, d);
  }

  lemma TwoIsANumber(x: byte, y: byte)
    ensures InBase64(EncodeGroup([x, y])[..3]) == Some((x as nat * 256 + y as nat) * 4) && EncodeGroup([x, y])[3] == '='
  {
    var (k, m) := (x as nat, y as nat);
    BytesOfSextets(k, m, 0);
    NumberOf(k / 4, k % 4 * 16 + m / 16, m % 16 * 4, 0);
    assert EncodeGroup([x, y])[..3] == [Letter(k / 4), Letter(k % 4 * 16 + m / 16), Letter(m % 16 * 4)];
  }

  lemma OneIsANumber(x: byte)
    ensures InBase64(EncodeGroup([x])[..2]) == Some(x as nat * 16) && EncodeGroup([x])[2..] == "=="
  {
    var k := x as nat;
    BytesOfSextets(k, 0, 0);
    NumberOf(k / 4, k % 4 * 16, 0, 0);
    assert EncodeGroup([x])[..2] == [Letter(k / 4), Letter(k % 4 * 16)];
  }

  /** Decoding gives back the encoded bytes. */
  lemma {:induction false} DecodeEncode(b: Bytes)
    ensures Decode(Encode(b)) == Some(b)
    decreases |b|
  {
    if b != [] {
      var head, tail, group := FirstGroup(b);
      DecodeEncode(tail);
      DecodeFirst(group, Encode(tail), head, tail);
    }
  }

  lemma SextetsOfBytes(a: nat, b: nat, c: nat, d: nat)
    requires a < 64 && b < 64 && c < 64 && d < 64
    ensures var (x, y, z) := (a * 4 + b / 16, b % 16 * 16 + c / 4, c % 4 * 64 + d);
            && x < 256 && y < 256 && z < 256
            && x / 4 == a && x % 4 * 16 + y / 16 == b && y % 16 * 4 + z / 64 == c && z % 64 == d
            && x % 4 * 16 == b - b % 16 && y % 16 * 4 == c - c % 4
  {
  }

  lemma LettersOfThree(a: nat, b: nat, c: nat, d: nat)
    requires a < 64 && b < 64 && c < 64 && d < 64
    ensures SextetsFitBytes(a, b, c, d)
    ensures EncodeGroup([(a * 4 + b / 16) as byte, (b % 16 * 16 + c / 4) as byte, (c % 4 * 64 + d) as byte])
         == [Letter(a), Letter(b), Letter(c), Letter(d)]
  {
    SextetsOfBytes(a, b, c, d);
  }

  lemma LettersOfTwo(a: nat, b: nat, c: nat)
    requires a < 64 && b < 64 && c < 64 && c % 4 == 0
    ensures SextetsFitBytes(a, b, c, 0)
    ensures EncodeGroup([(a * 4 + b / 16) as byte, (b % 16 * 16 + c / 4) as byte]) == [Letter(a), Letter(b), Letter(c), '=']
  {
    SextetsOfBytes(a, b, c, 0);
  }

  lemma LettersOfOne(a: nat, b: nat)
    requires a < 64 && b < 64 && b % 16 == 0
    ensures SextetsFitBytes(a, b, 0, 0)
    ensures EncodeGroup([(a * 4 + b / 16) as byte]) == [Letter(a), Letter(b), '=', '=']
  {
    SextetsOfBytes(a, b, 0, 0);
  }

  predicate SextetsFitBytes(a: nat, b: nat, c: nat, d: nat) {
    a * 4 + b / 16 < 256 && b % 16 * 16 + c / 4 < 256 && c % 4 * 64 + d < 256
  }

  lemma LetterOfSextet(c: char)
    ensures Sextet(c).Some? ==> c != '=' && Letter(Sextet(c).value) == c
  {
  }

  lemma DecodesToThree(s: string, a: nat, b: nat, c: nat, d: nat)
    requires |s| == 4 && s[2] != '=' && s[3] != '='
    requires Sextet(s[0]) == Some(a) && Sextet(s[1]) == Some(b) && Sextet(s[2]) == Some(c) && Sextet(s[3]) == Some(d)
    ensures SextetsFitBytes(a, b, c, d)
    ensures DecodeGroup(s) == Some([(a * 4 + b / 16) as byte, (b % 16 * 16 + c / 4) as byte, (c % 4 * 64 + d) as byte])
  {
  }

  lemma LettersOfSextets(s: string)
    requires |s| == 4 && forall i :: 0 <= i < 4 ==> Sextet(s[i]).Some?
    ensures s == [Letter(Sextet(s[0]).value), Letter(Sextet(s[1]).value), Letter(Sextet(s[2]).value), Letter(Sextet(s[3]).value)]
  {
    LetterOfSextet(s[0]);
    LetterOfSextet(s[1]);
    LetterOfSextet(s[2]);
    LetterOfSextet(s[3]);
  }

  /** A group that decodes, by the number of padding characters. */
  lemma CanonicalThree(s: string)
    requires |s| == 4 && DecodeGroup(s).Some? && s[3] != '='
    ensures EncodeGroup(DecodeGroup(s).value) == s
  {
    var a, b, c, d := Sextet(s[0]).value, Sextet(s[1]).value, Sextet(s[2]).value, Sextet(s[3]).value;
    LetterOfSextet(s[2]);
    DecodesToThree(s, a, b, c, d);
    LettersOfThree(a, b, c, d);
    LettersOfSextets(s);
  }

  lemma CanonicalTwo(s: string)
    requires |s| == 4 && DecodeGroup(s).Some? && s[2] != '=' && s[3] == '='
    ensures EncodeGroup(DecodeGroup(s).value) == s
  {
    LettersOfTwo(Sextet(s[0]).value, Sextet(s[1]).value, Sextet(s[2]).value);
    LetterOfSextet(s[0]);
    LetterOfSextet(s[1]);
    LetterOfSextet(s[2]);
  }

  lemma CanonicalOne(s: string)
    requires |s| == 4 && DecodeGroup(s).Some? && s[2] == '=' && s[3] == '='
    ensures EncodeGroup(DecodeGroup(s).value) == s
  {
    LettersOfOne(Sextet(s[0]).value, Sextet(s[1]).value);
    LetterOfSextet(s[0]);
    LetterOfSextet(s[1]);
  }

  lemma CanonicalGroup(s: string)
    requires |s| == 4 && DecodeGroup(s).Some?
    ensures EncodeGroup(DecodeGroup(s).value) == s
  {
    if s[3] != '=' {
      CanonicalThree(s);
    } else if s[2] != '=' {
      CanonicalTwo(s);
    } else {
      CanonicalOne(s);
    }
  }

  /** Only canonical text decodes: a text that decodes is the encoding of what it decodes to. */
  lemma {:induction false} EncodeDecode(s: string)
    ensures Decode(s).Some? ==> Encode(Decode(s).value) == s
  {
    if s != "" && Decode(s).Some? {
      CanonicalGroup(s[..4]);
      EncodeDecode(s[4..]);
      var g, rest := DecodeGroup(s[..4]).value, Decode(s[4..]).value;
      if rest == [] {
        assert g + rest == g && s[4..] == "";
      } else {
        assert (g + rest)[..3] == g && (g + rest)[3..] == rest;
      }
      assert s == s[..4] + s[4..];
    }
  }

  lemma EncodeUnfolds(b: Bytes)
    requires |b| >= 3
    ensures Encode(b) == EncodeGroup(b[..3]) + Encode(b[3..])
  {
    if |b| == 3 {
      assert b[..3] == b;
    }
  }

  /** Any encoding that works group by group from the front, `group` being one group's text. */
  ghost predicate GroupWise(encode: Bytes -> string, group: Bytes -> string) {
    && encode([]) == ""
    && forall b: Bytes {:trigger group(b[..3])} :: |b| >= 3 ==> encode(b) == group(b[..3]) + encode(b[3..])
  }

  lemma {:induction false} GroupWiseConcatenates(encode: Bytes -> string, group: Bytes -> string, a: Bytes, b: Bytes)
    requires GroupWise(encode, group) && |a| % 3 == 0
    ensures encode(a + b) == encode(a) + encode(b)
    decreases |a|
  {
    if a == [] {
      assert a + b == b;
    } else {
      assert (a + b)[..3] == a[..3] && (a + b)[3..] == a[3..] + b;
      assert group(a[..3]) == group((a + b)[..3]);
      GroupWiseConcatenates(encode, group, a[3..], b);
    }
  }

  /** Cutting the bytes at a multiple of three cuts the text without changing it. */
  lemma EncodeConcatenates(a: Bytes, b: Bytes)
    requires |a| % 3 == 0
    ensures Encode(a + b) == Encode(a) + Encode(b)
  {
    var group := (g: Bytes) => if 1 <= |g| <= 3 then EncodeGroup(g) else "";
    forall b: Bytes | |b| >= 3
      ensures Encode(b) == group(b[..3]) + Encode(b[3..])
    {
      EncodeUnfolds(b);
    }
    var encode := (b: Bytes) => Encode(b);
    assert GroupWise(encode, group);
    GroupWiseConcatenates(encode, group, a, b);
    assert encode(a + b) == Encode(a + b);
  }

  // ------------------------------------------------- the browser's `atob`

  predicate IsSpace(c: char) {
    c == ' ' || c == '\t' || c == '\n' || c == '\r' || c as int == 12
  }

  function WithoutSpaces(s: string): string {
    if s == "" then "" else (if IsSpace(s[0]) then "" else [s[0]]) + WithoutSpaces(s[1..])
  }

  /** One or two trailing padding characters are dropped from a text of whole groups. */
  function Unpadded(s: string): string {
    if s == "" || |s| % 4 != 0 || s[|s| - 1] != '=' then s
    else if s[|s| - 2] == '=' then s[..|s| - 2]
    else s[..|s| - 1]
  }

  /** The first bytes of a group whose last one or two characters are missing; bits left over are dropped. */
  function ShortGroup(s: string): Option<Bytes>
    requires 2 <= |s| <= 3
  {
    var (a, b) := (Sextet(s[0]), Sextet(s[1]));
    if a.None? || b.None? then None
    else
      var x := (a.value * 4 + b.value / 16) as byte;
      if |s| == 2 then Some([x])
      else
        var c := Sextet(s[2]);
        if c.None? then None else Some([x, (b.value % 16 * 16 + c.value / 4) as byte])
  }

  function Groups(s: string): Option<Bytes> {
    if s == "" then Some([])
    else if |s| == 1 then None
    else if |s| < 4 then ShortGroup(s)
    else
      var group := if s[2] == '=' || s[3] == '=' then None else DecodeGroup(s[..4]);
      var rest := Groups(s[4..]);
      if group.None? || rest.None? then None else Some(group.value + rest.value)
  }

  /** The forgiving decoder: spaces, missing padding and stray trailing bits are no errors. */
  function Atob(s: string): Option<Bytes> {
    Groups(Unpadded(WithoutSpaces(s)))
  }

  lemma CleanLetter(n: nat)
    requires n < 64
    ensures Letter(n) != '=' && !IsSpace(Letter(n))
  {
  }

  lemma CleanGroup(g: Bytes, i: nat)
    requires 1 <= |g| <= 3 && i < 4
    ensures !IsSpace(EncodeGroup(g)[i])
    ensures EncodeGroup(g)[i] == '=' <==> i > |g|
  {
    var x := g[0] as nat;
    CleanLetter(x / 4);
    if |g| == 1 {
      CleanLetter(x % 4 * 16);
    } else {
      var y := g[1] as nat;
      CleanLetter(x % 4 * 16 + y / 16);
      if |g| == 2 {
        CleanLetter(y % 16 * 4);
      } else {
        CleanLetter(y % 16 * 4 + g[2] as nat / 64);
        CleanLetter(g[2] as nat % 64);
      }
    }
  }

  lemma ShortOfTwo(x: byte, y: byte)
    ensures ShortGroup(EncodeGroup([x, y])[..3]) == Some([x, y])
  {
    var (k, m) := (x as nat, y as nat);
    BytesOfSextets(k, m, 0);
    SextetsOfLetters(k / 4, k % 4 * 16 + m / 16, m % 16 * 4, 0);
  }

  lemma ShortOfOne(x: byte)
    ensures ShortGroup(EncodeGroup([x])[..2]) == Some([x])
  {
    BytesOfSextets(x as nat, 0, 0);
    SextetsOfLetters(x as nat / 4, x as nat % 4 * 16, 0, 0);
  }

  /** The last group without its padding. */
  lemma LastGroup(g: Bytes)
    requires 1 <= |g| <= 3
    ensures Groups(Unpadded(EncodeGroup(g))) == Some(g)
  {
    var s := EncodeGroup(g);
    CleanGroup(g, 2);
    CleanGroup(g, 3);
    if |g| == 1 {
      assert g == [g[0]] && Unpadded(s) == s[..2];
      ShortOfOne(g[0]);
    } else if |g| == 2 {
      assert g == [g[0], g[1]] && Unpadded(s) == s[..3];
      ShortOfTwo(g[0], g[1]);
    } else {
      GroupRoundTrip(g);
      assert s == s + "" && Groups("") == Some([]);
      FullGroupFirst(g, "");
      assert Unpadded(s) == s && g + [] == g;
    }
  }

  lemma UnpaddedBehind(head: string, tail: string, groups: nat)
    requires |head| == 4 && |tail| == 4 * groups && groups > 0
    ensures Unpadded(head + tail) == head + Unpadded(tail)
  {
    var s := head + tail;
    var n := |tail|;
    assert |s| == 4 * (groups + 1);
    assert s[n + 3] == tail[n - 1] && s[n + 2] == tail[n - 2];
    if tail[n - 1] == '=' {
      if tail[n - 2] == '=' {
        assert s[..n + 2] == head + tail[..n - 2];
      } else {
        assert s[..n + 3] == head + tail[..n - 1];
      }
    }
  }

  lemma {:induction false} EncodedLength(b: Bytes) returns (groups: nat)
    ensures |Encode(b)| == 4 * groups && (b != [] ==> groups > 0)
  {
    if |b| > 3 {
      groups := EncodedLength(b[3..]);
      groups := groups + 1;
    } else {
      groups := if b == [] then 0 else 1;
    }
  }

  lemma {:induction false} GroupsOfEncoded(b: Bytes)
    ensures Groups(Unpadded(Encode(b))) == Some(b)
    decreases |b|
  {
    if |b| > 3 {
      var head, tail := EncodeGroup(b[..3]), Encode(b[3..]);
      var groups := EncodedLength(b[3..]);
      UnpaddedBehind(head, tail, groups);
      GroupsOfEncoded(b[3..]);
      FullGroupFirst(b[..3], Unpadded(tail));
      assert b == b[..3] + b[3..];
    } else if b != [] {
      LastGroup(b);
    }
  }

  lemma FullGroupFirst(g: Bytes, rest: string)
    requires |g| == 3 && Groups(rest).Some?
    ensures Groups(EncodeGroup(g) + rest) == Some(g + Groups(rest).value)
  {
    var s := EncodeGroup(g) + rest;
    CleanGroup(g, 2);
    CleanGroup(g, 3);
    GroupRoundTrip(g);
    assert s[..4] == EncodeGroup(g) && s[4..] == rest;
  }

  lemma {:induction false} EncodedHasNoSpaces(b: Bytes, i: nat)
    requires i < |Encode(b)|
    ensures !IsSpace(Encode(b)[i])
    decreases |b|
  {
    if |b| <= 3 {
      CleanGroup(b, i);
    } else if i < 4 {
      CleanGroup(b[..3], i);
    } else {
      EncodedHasNoSpaces(b[3..], i - 4);
    }
  }

  lemma {:induction false} NothingToStrip(s: string)
    requires forall i :: 0 <= i < |s| ==> !IsSpace(s[i])
    ensures WithoutSpaces(s) == s
  {
    if s != "" {
      NothingToStrip(s[1..]);
      assert s == [s[0]] + s[1..];
    }
  }

  /** The browser's decoder gives back the encoded bytes, too. */
  lemma AtobEncode(b: Bytes)
    ensures Atob(Encode(b)) == Some(b)
  {
    forall i | 0 <= i < |Encode(b)|
      ensures !IsSpace(Encode(b)[i])
    {
      EncodedHasNoSpaces(b, i);
    }
    NothingToStrip(Encode(b));
    GroupsOfEncoded(b);
  }

  /** It agrees with the strict decoder wherever that one accepts, and accepts more. */
  lemma AtobExtendsDecode(s: string)
    ensures Decode(s).Some? ==> Atob(s) == Decode(s)
  {
    if Decode(s).Some? {
      EncodeDecode(s);
      AtobEncode(Decode(s).value);
    }
  }

  lemma AtobDropsBits()
    ensures Decode("QR==") == None && Atob("QR==") == Some([65])
  {
    NothingToStrip("QR==");
    assert "QR=="[..2] == "QR" && "QR=="[..4] == "QR==";
  }

  lemma AtobSuppliesPadding()
    ensures Decode("QQ") == None && Atob("QQ") == Some([65])
  {
    NothingToStrip("QQ");
  }

  lemma AtobSkipsSpaces()
    ensures Decode("Q Q==") == None && Atob("Q Q==") == Some([65])
  {
    SpaceInTheMiddle();
    assert Unpadded("QQ==") == "QQ";
    assert "Q Q=="[..4] == "Q Q=";
  }

  lemma SpaceInTheMiddle()
    ensures WithoutSpaces("Q Q==") == "QQ=="
  {
    assert "Q Q=="[1..] == " Q==" && " Q=="[1..] == "Q==";
    NothingToStrip("Q==");
    assert ['Q'] + "Q==" == "QQ==";
  }
}
