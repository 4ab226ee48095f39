/**
 * The `application/x-www-form-urlencoded` value codec of HTML 4.01 section
 * 17.13.4.1, as `java.net.URLEncoder.encode` and `java.net.URLDecoder.decode`
 * apply it.
 *
 * The charset step (characters to bytes and back) is abstracted: a value is
 * modelled by the bytes the charset produced, one character below 256 per
 * byte, so encoding and decoding work byte by byte.
 */
module Percent {
  import opened Wrappers

  /** Every character stands for one byte. */
  predicate IsOctets(s: string)
  {
    forall i | 0 <= i < |s| :: s[i] as int < 256
  }

  /** A value after the charset step: a string of byte-valued characters. */
  type Octets = s: string | IsOctets(s)

  /** Kept as is by the encoder: ASCII letters and digits and `.`, `-`, `*`, `_`. */
  predicate IsUnreserved(c: char)
  {
    ('a' <= c <= 'z') || ('A' <= c <= 'Z') || ('0' <= c <= '9') || c == '.' || c == '-' || c == '*' || c == '_'
  }

  predicate IsHexDigit(c: char)
  {
    ('0' <= c <= '9') || ('a' <= c <= 'f') || ('A' <= c <= 'F')
  }

  /** The characters an encoded value is made of. */
  predicate IsEncodedChar(c: char)
  {
    IsUnreserved(c) || c == '+' || c == '%'
  }

  /** The upper-case hexadecimal digit for `n`, as the encoder writes it. */
  function HexDigit(n: nat): (c: char)
    requires n < 16
    ensures IsHexDigit(c) && IsUnreserved(c)
  {
    if n < 10 then ('0' as int + n) as char else ('A' as int + n - 10) as char
  }

  function HexValue(c: char): (n: nat)
    requires IsHexDigit(c)
    ensures n < 16
  {
    if '0' <= c <= '9' then c as int - '0' as int
    else if 'a' <= c <= 'f' then c as int - 'a' as int + 10
    else c as int - 'A' as int + 10
  }

  /** Reading back a digit the encoder wrote gives its value. */
  lemma HexRoundTrip(n: nat)
    requires n < 16
    ensures HexValue(HexDigit(n)) == n
  {
  }

  /** One byte: unreserved kept, space as `+`, anything else as `%XY`. */
  function EncodeByte(c: char): string
    requires c as int < 256
  {
    if IsUnreserved(c) then [c]
    else if c == ' ' then "+"
    else ['%', HexDigit(c as int / 16), HexDigit(c as int % 16)]
  }

  /** `URLEncoder.encode`: the output uses only unreserved characters, `+` and `%`, so never `&` or `=`. */
  function Encode(s: Octets): (r: string)
    ensures forall i | 0 <= i < |r| :: IsEncodedChar(r[i])
    ensures |r| >= |s|
    decreases |s|
  {
    if s == [] then [] else EncodeByte(s[0]) + Encode(s[1..])
  }

  function Prepend(c: char, r: Result<string, ()>): Result<string, ()>
  {
    match r
    case Ok(t) => Ok([c] + t)
    case Err(e) => Err(e)
  }

  /**
   * `URLDecoder.decode`: `+` is a space, `%XY` is the byte with hexadecimal
   * value XY, any other character stands for itself. A `%` that is not
   * followed by two hexadecimal digits fails (`IllegalArgumentException`).
   */
  function Decode(s: string): Result<string, ()>
    decreases |s|
  {
    if s == [] then Ok([])
    else if s[0] == '+' then Prepend(' ', Decode(s[1..]))
    else if s[0] == '%' then
      if |s| < 3 || !IsHexDigit(s[1]) || !IsHexDigit(s[2]) then Err(())
      else Prepend((16 * HexValue(s[1]) + HexValue(s[2])) as char, Decode(s[3..]))
    else Prepend(s[0], Decode(s[1..]))
  }

  lemma DecodeEncodedByte(c: char, rest: string)
    requires c as int < 256
    ensures Decode(EncodeByte(c) + rest) == Prepend(c, Decode(rest))
  {
    var e := EncodeByte(c) + rest;
    if IsUnreserved(c) {
      assert e[0] == c && e[1..] == rest;
    } else if c == ' ' {
      assert e[0] == '+' && e[1..] == rest;
    } else {
      var hi, lo := c as int / 16, c as int % 16;
      HexRoundTrip(hi);
      HexRoundTrip(lo);
      assert e[0] == '%' && e[1] == HexDigit(hi) && e[2] == HexDigit(lo) && e[3..] == rest;
    }
  }

  /** Decoding the encoding of a value gives back the value. */
  lemma {:induction false} DecodeEncode(s: Octets)
    ensures Decode(Encode(s)) == Ok(s)
    decreases |s|
  {
    if s != [] {
      DecodeEncodedByte(s[0], Encode(s[1..]));
      DecodeEncode(s[1..]);
      assert [s[0]] + s[1..] == s;
    }
  }

  /** A value made only of unreserved characters is its own encoding. */
  lemma {:induction false} EncodeUnreserved(s: Octets)
    requires forall i | 0 <= i < |s| :: IsUnreserved(s[i])
    ensures Encode(s) == s
    decreases |s|
  {
    if s != [] {
      EncodeUnreserved(s[1..]);
      assert [s[0]] + s[1..] == s;
    }
  }

  /** Decoding runs through an encoded prefix unchanged: a value decoded after it comes out behind the prefix's value. */
  lemma {:induction false} DecodeEncodedPrefix(s: Octets, rest: string)
    requires Decode(rest).Ok?
    ensures Decode(Encode(s) + rest) == Ok(s + Decode(rest).value)
    decreases |s|
  {
    var t := Decode(rest).value;
    if s == [] {
      assert Encode(s) + rest == rest;
      assert s + t == t;
    } else {
      var tail := Encode(s[1..]) + rest;
      DecodeEncodedPrefix(s[1..], rest);
      assert Decode(Encode(s) + rest) == Prepend(s[0], Decode(tail)) by {
        EncodeCons(s, rest);
        DecodeEncodedByte(s[0], tail);
      }
      assert Decode(tail) == Ok(s[1..] + t);
      calc {
        [s[0]] + (s[1..] + t);
        ([s[0]] + s[1..]) + t;
        { assert [s[0]] + s[1..] == s; }
        s + t;
      }
    }
  }

  /** A failure after an encoded prefix fails the whole decoding. */
  lemma {:induction false} DecodeEncodedPrefixFails(s: Octets, rest: string)
    requires Decode(rest).Err?
    ensures Decode(Encode(s) + rest).Err?
    decreases |s|
  {
    if s == [] {
      assert Encode(s) + rest == rest;
    } else {
      var tail := Encode(s[1..]) + rest;
      DecodeEncodedPrefixFails(s[1..], rest);
      assert Decode(Encode(s) + rest) == Prepend(s[0], Decode(tail)) by {
        EncodeCons(s, rest);
        DecodeEncodedByte(s[0], tail);
      }
    }
  }

  lemma EncodeCons(s: Octets, rest: string)
    requires s != []
    ensures Encode(s) + rest == EncodeByte(s[0]) + (Encode(s[1..]) + rest)
  {
  }

  /**
   * A `%` not followed by two hexadecimal digits fails the whole decoding,
   * wherever it stands: after any prefix that decodes on its own.
   */
  lemma {:induction false} MalformedEscapeRejected(p: string, rest: string)
    requires Decode(p).Ok?
    requires |rest| < 2 || !IsHexDigit(rest[0]) || !IsHexDigit(rest[1])
    ensures Decode(p + ['%'] + rest).Err?
    decreases |p|
  {
    var s := p + ['%'] + rest;
    if p == [] {
      assert s == ['%'] + rest;
      assert |rest| >= 2 ==> s[1] == rest[0] && s[2] == rest[1];
    } else if p[0] == '+' || p[0] != '%' {
      assert s[0] == p[0] && s[1..] == p[1..] + ['%'] + rest;
      MalformedEscapeRejected(p[1..], rest);
    } else {
      assert |p| >= 3 && IsHexDigit(p[1]) && IsHexDigit(p[2]);
      assert s[..3] == p[..3] && s[3..] == p[3..] + ['%'] + rest;
      MalformedEscapeRejected(p[3..], rest);
    }
  }

  /** A stray `%` is rejected even after an escape the encoder never writes (lower-case `%2f`). */
  lemma StrayPercentExample()
    ensures Decode("%2f%").Err?
  {
    assert Decode("%2f") == Ok("/") by {
      assert "%2f"[3..] == "";
      assert HexValue('2') == 2 && HexValue('f') == 15;
      assert (16 * 2 + 15) as char == '/';
      assert ['/'] + "" == "/";
    }
    assert "%2f%" == "%2f" + ['%'] + "";
    MalformedEscapeRejected("%2f", "");
  }

  /** Both cases of hexadecimal digits are accepted, and `+` is a space. */
  lemma DecodeExample()
    ensures Decode("%2f%2F+") == Ok("// ")
  {
    assert Decode("") == Ok("");
    assert Decode("+") == Ok(" ") by {
      assert "+"[1..] == "";
      assert [' '] + "" == " ";
    }
    assert HexValue('2') == 2 && HexValue('f') == 15 && HexValue('F') == 15;
    assert (16 * 2 + 15) as char == '/';
    assert Decode("%2F+") == Ok("/ ") by {
      assert "%2F+"[0] == '%' && "%2F+"[1] == '2' && "%2F+"[2] == 'F' && "%2F+"[3..] == "+";
      assert ['/'] + " " == "/ ";
    }
    assert Decode("%2f%2F+") == Ok("// ") by {
      assert "%2f%2F+"[0] == '%' && "%2f%2F+"[1] == '2' && "%2f%2F+"[2] == 'f' && "%2f%2F+"[3..] == "%2F+";
      assert ['/'] + "/ " == "// ";
    }
  }
}
