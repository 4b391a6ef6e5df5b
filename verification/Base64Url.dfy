/** Base64url without padding, section 5 of RFC 4648, over octets. */
module Base64Url {
  import opened Common

  type Octet = x: int | 0 <= x < 256
  type Sextet = x: int | 0 <= x < 64

  /** The URL-safe alphabet: A-Z, a-z, 0-9, minus, underscore. */
  function CharOf(s: Sextet): char {
    if s < 26 then ('A' as int + s) as char
    else if s < 52 then ('a' as int + (s - 26)) as char
    else if s < 62 then ('0' as int + (s - 52)) as char
    else if s == 62 then '-' else '_'
  }

  function SextetOf(c: char): Option<Sextet> {
    if 'A' <= c <= 'Z' then Some(c as int - 'A' as int)
    else if 'a' <= c <= 'z' then Some(c as int - 'a' as int + 26)
    else if '0' <= c <= '9' then Some(c as int - '0' as int + 52)
    else if c == '-' then Some(62)
    else if c == '_' then Some(63)
    else None
  }

  lemma CharsAreDistinct(s: Sextet)
    ensures SextetOf(CharOf(s)) == Some(s)
  {
  }

  predicate UrlSafe(text: string) { forall c :: c in text ==> SextetOf(c).Some? }

  /** The four characters of three octets. */
  function Group(a: Octet, b: Octet, c: Octet): string {
    [CharOf(a / 4), CharOf(a % 4 * 16 + b / 16), CharOf(b % 16 * 4 + c / 64), CharOf(c % 64)]
  }

  function Encode(octets: seq<Octet>): string {
    if octets == [] then []
    else if |octets| == 1 then Group(octets[0], 0, 0)[..2]
    else if |octets| == 2 then Group(octets[0], octets[1], 0)[..3]
    else Group(octets[0], octets[1], octets[2]) + Encode(octets[3..])
  }

  /** Decoding with the padding put back: a tail of one character is an error, and the unused low bits
      of a tail are ignored. */
  function Decode(text: string): Option<seq<Octet>> {
    if text == [] then Some([])
    else if |text| == 1 then None
    else if SextetOf(text[0]).None? || SextetOf(text[1]).None? then None
    else
      var a, b := SextetOf(text[0]).value, SextetOf(text[1]).value;
      if |text| == 2 then Some([a * 4 + b / 16])
      else if SextetOf(text[2]).None? then None
      else
        var c := SextetOf(text[2]).value;
        if |text| == 3 then Some([a * 4 + b / 16, b % 16 * 16 + c / 4])
        else if SextetOf(text[3]).None? then None
        else
          var d, rest := SextetOf(text[3]).value, Decode(text[4..]);
          if rest.None? then None
          else Some([a * 4 + b / 16, b % 16 * 16 + c / 4, c % 4 * 64 + d] + rest.value)
  }

  lemma GroupReads(a: Octet, b: Octet, c: Octet)
    ensures UrlSafe(Group(a, b, c))
    ensures var g := Group(a, b, c);
            && SextetOf(g[0]) == Some(a / 4) && SextetOf(g[1]) == Some(a % 4 * 16 + b / 16)
            && SextetOf(g[2]) == Some(b % 16 * 4 + c / 64) && SextetOf(g[3]) == Some(c % 64)
  {
    CharsAreDistinct(a / 4);
    CharsAreDistinct(a % 4 * 16 + b / 16);
    CharsAreDistinct(b % 16 * 4 + c / 64);
    CharsAreDistinct(c % 64);
  }

  /** Regrouping four sextets as three octets gives back the octets they were cut from. */
  lemma Regroup(a: Octet, b: Octet, c: Octet)
    ensures var x, y := a % 4 * 16 + b / 16, b % 16 * 4 + c / 64;
            a / 4 * 4 + x / 16 == a && x % 16 * 16 + y / 4 == b && y % 4 * 64 + c % 64 == c
  {
  }

  lemma TailReads(a: Octet, b: Octet)
    ensures Decode(Group(a, 0, 0)[..2]) == Some([a]) && Decode(Group(a, b, 0)[..3]) == Some([a, b])
    ensures UrlSafe(Group(a, 0, 0)[..2]) && UrlSafe(Group(a, b, 0)[..3])
  {
    GroupReads(a, 0, 0);
    Regroup(a, 0, 0);
    GroupReads(a, b, 0);
    Regroup(a, b, 0);
  }

  lemma SafeJoins(head: string, tail: string)
    requires UrlSafe(head) && UrlSafe(tail)
    ensures UrlSafe(head + tail)
  {
  }

  /** Decoding reads one group of four characters and goes on behind it. */
  lemma FourDecode(text: string, w: Sextet, x: Sextet, y: Sextet, z: Sextet)
    requires |text| >= 4
    requires SextetOf(text[0]) == Some(w) && SextetOf(text[1]) == Some(x)
    requires SextetOf(text[2]) == Some(y) && SextetOf(text[3]) == Some(z)
    requires Decode(text[4..]).Some?
    ensures Decode(text) == Some([w * 4 + x / 16, x % 16 * 16 + y / 4, y % 4 * 64 + z] + Decode(text[4..]).value)
  {
  }

  lemma GroupDecodes(a: Octet, b: Octet, c: Octet, rest: string)
    requires Decode(rest).Some?
    ensures Decode(Group(a, b, c) + rest) == Some([a, b, c] + Decode(rest).value)
  {
    GroupReads(a, b, c);
    var g := Group(a, b, c);
    var text := g + rest;
    assert text[4..] == rest;
    assert text[0] == g[0] && text[1] == g[1] && text[2] == g[2] && text[3] == g[3];
    Regroup(a, b, c);
    FourDecode(text, a / 4, a % 4 * 16 + b / 16, b % 16 * 4 + c / 64, c % 64);
  }

  /** Decoding undoes encoding, and the text uses the URL-safe alphabet only. */
  lemma {:induction false} DecodeInvertsEncode(octets: seq<Octet>)
    ensures Decode(Encode(octets)) == Some(octets) && UrlSafe(Encode(octets))
  {
    if |octets| == 1 {
      TailReads(octets[0], 0);
      assert octets == [octets[0]];
    } else if |octets| == 2 {
      TailReads(octets[0], octets[1]);
      assert octets == [octets[0], octets[1]];
    } else if octets != [] {
      DecodeInvertsEncode(octets[3..]);
      GroupDecodes(octets[0], octets[1], octets[2], Encode(octets[3..]));
      GroupReads(octets[0], octets[1], octets[2]);
      SafeJoins(Group(octets[0], octets[1], octets[2]), Encode(octets[3..]));
      assert octets == [octets[0], octets[1], octets[2]] + octets[3..];
    }
  }

  /** Three octets take four characters, rounded up. */
  lemma {:induction false} EncodedLength(octets: seq<Octet>)
    ensures 3 * |Encode(octets)| >= 4 * |octets| && 3 * |Encode(octets)| <= 4 * |octets| + 2
  {
    if |octets| > 2 {
      EncodedLength(octets[3..]);
    }
  }
}
