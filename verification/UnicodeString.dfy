/** UTF-8 validation of byte strings: std/UnicodeString.hx, lines 48 to 111. */
module UnicodeString {

  import Utf8

  type Byte = Utf8.Byte

  predicate Tail(b: Byte)
  {
    0x80 <= b <= 0xBF
  }

  /** One UTF8-char of the grammar in section 4 of RFC 3629. */
  predicate Char(s: seq<Byte>)
  {
    match |s|
    case 1 => s[0] <= 0x7F
    case 2 => 0xC2 <= s[0] <= 0xDF && Tail(s[1])
    case 3 =>
      && Tail(s[2])
      && (|| (s[0] == 0xE0 && 0xA0 <= s[1] <= 0xBF)
          || (0xE1 <= s[0] <= 0xEC && Tail(s[1]))
          || (s[0] == 0xED && 0x80 <= s[1] <= 0x9F)
          || (0xEE <= s[0] <= 0xEF && Tail(s[1])))
    case 4 =>
      && Tail(s[2]) && Tail(s[3])
      && (|| (s[0] == 0xF0 && 0x90 <= s[1] <= 0xBF)
          || (0xF1 <= s[0] <= 0xF3 && Tail(s[1]))
          || (s[0] == 0xF4 && 0x80 <= s[1] <= 0x8F))
    case _ => false
  }

  /** UTF8-octets: any number of UTF8-chars. */
  predicate Octets(s: seq<Byte>)
    decreases |s|
  {
    s == [] || exists n :: 1 <= n <= |s| && Char(s[..n]) && Octets(s[n..])
  }

  /** The first byte says how long the character is, so the grammar can be read in one way only. */
  function Width(c: Byte): (n: nat)
    ensures 1 <= n <= 4
  {
    if c < 0x80 then 1 else if c < 0xE0 then 2 else if c < 0xF0 then 3 else 4
  }

  lemma OneReading(s: seq<Byte>)
    requires s != []
    ensures Octets(s) <==> Width(s[0]) <= |s| && Char(s[..Width(s[0])]) && Octets(s[Width(s[0])..])
  {
    if Octets(s) {
      var n :| 1 <= n <= |s| && Char(s[..n]) && Octets(s[n..]);
      assert s[..n][0] == s[0] && n == Width(s[0]);
    }
  }

  /** The UTF8 branch of `validate`. */
  method Validate(data: seq<Byte>) returns (valid: bool)
    ensures valid == Octets(data)
  {
    var pos := 0;
    var max := |data|;
    while pos < max
      invariant pos <= max && Octets(data) == Octets(data[pos..])
    {
      var start := pos;
      var c: int := data[pos];
      pos := pos + 1;
      OneReading(data[start..]);
      if c < 0x80 {
        assert Char(data[start..][..1]);
      } else if c < 0xC2 {
        return false;
      } else if c < 0xE0 {
        if pos + 1 > max {
          return false;
        }
        var c2: int := data[pos];
        pos := pos + 1;
        if c2 < 0x80 || c2 > 0xBF {
          return false;
        }
      } else if c < 0xF0 {
        if pos + 2 > max {
          return false;
        }
        var c2: int := data[pos];
        pos := pos + 1;
        if c == 0xE0 {
          if c2 < 0xA0 || c2 > 0xBF {
            return false;
          }
        } else {
          if c2 < 0x80 || c2 > 0xBF {
            return false;
          }
        }
        var c3: int := data[pos];
        pos := pos + 1;
        if c3 < 0x80 || c3 > 0xBF {
          return false;
        }
        c := c * 0x10000 + c2 * 0x100 + c3;
        if 0xEDA080 <= c <= 0xEDBFBF { // surrogate pairs
          return false;
        }
      } else if c > 0xF4 {
        return false;
      } else {
        if pos + 3 > max {
          return false;
        }
        var c2: int := data[pos];
        pos := pos + 1;
        if c == 0xF0 {
          if c2 < 0x90 || c2 > 0xBF {
            return false;
          }
        } else if c == 0xF4 {
          if c2 < 0x80 || c2 > 0x8F {
            return false;
          }
        } else {
          if c2 < 0x80 || c2 > 0xBF {
            return false;
          }
        }
        var c3: int := data[pos];
        pos := pos + 1;
        if c3 < 0x80 || c3 > 0xBF {
          return false;
        }
        var c4: int := data[pos];
        pos := pos + 1;
        if c4 < 0x80 || c4 > 0xBF {
          return false;
        }
      }
      assert data[start..][pos - start..] == data[pos..];
    }
    valid := true;
  }

  // ---------------------------------------------------------------- what the grammar spells

  /** A Unicode scalar value: a code point that is no surrogate. */
  predicate IsScalar(k: int)
  {
    0 <= k < 0xD800 || 0xE000 <= k < 0x11_0000
  }

  lemma ScalarSpelled(k: int)
    requires IsScalar(k)
    ensures Char(Utf8.Encode(k))
  {
  }

  function Low(b: int, marker: int): int
  {
    b - marker
  }

  function CodePoint(s: seq<Byte>): (k: int)
    requires 1 <= |s| <= 4
  {
    if |s| == 1 then s[0]
    else if |s| == 2 then Low(s[0], 0xC0) * 64 + Low(s[1], 0x80)
    else if |s| == 3 then Low(s[0], 0xE0) * 0x1000 + Low(s[1], 0x80) * 64 + Low(s[2], 0x80)
    else Low(s[0], 0xF0) * 0x4_0000 + Low(s[1], 0x80) * 0x1000 + Low(s[2], 0x80) * 64 + Low(s[3], 0x80)
  }

  /** The sextets of a code point. */
  lemma Sextets(k: nat, a: nat, b: nat, c: nat, d: nat)
    requires b < 64 && c < 64 && d < 64 && k == ((a * 64 + b) * 64 + c) * 64 + d
    ensures k % 64 == d && k / 64 % 64 == c && k / 0x1000 % 64 == b && k / 0x4_0000 == a
    ensures k / 64 == (a * 64 + b) * 64 + c && k / 0x1000 == a * 64 + b
  {
    assert k / 64 == (a * 64 + b) * 64 + c;
    assert k / 64 / 64 == a * 64 + b && k / 64 / 64 == k / 0x1000;
    assert k / 0x1000 / 64 == a && k / 0x1000 / 64 == k / 0x4_0000;
  }

  lemma LongCharSpells(s: seq<Byte>)
    requires Char(s) && |s| == 4
    ensures var k := CodePoint(s); IsScalar(k) && Utf8.Encode(k) == s
  {
    Sextets(CodePoint(s), s[0] - 0xF0, s[1] - 0x80, s[2] - 0x80, s[3] - 0x80);
  }

  lemma CharSpells(s: seq<Byte>)
    requires Char(s)
    ensures var k := CodePoint(s); IsScalar(k) && Utf8.Encode(k) == s
  {
    if |s| == 2 {
      Sextets(CodePoint(s), 0, 0, s[0] - 0xC0, s[1] - 0x80);
    } else if |s| == 3 {
      Sextets(CodePoint(s), 0, s[0] - 0xE0, s[1] - 0x80, s[2] - 0x80);
    } else if |s| == 4 {
      LongCharSpells(s);
    }
  }

  lemma {:induction false} EncodedIsValid(us: seq<Utf8.Uchar>)
    requires forall u <- us :: IsScalar(u)
    ensures Octets(Utf8.EncodeAll(us))
  {
    hide Utf8.Encode, Char;
    if us != [] {
      var s, n := Utf8.EncodeAll(us), |Utf8.Encode(us[0])|;
      assert us[0] in us && forall u <- us[1..] :: u in us;
      ScalarSpelled(us[0]);
      EncodedIsValid(us[1..]);
      assert s[..n] == Utf8.Encode(us[0]) && s[n..] == Utf8.EncodeAll(us[1..]);
    }
  }

  lemma {:induction false} ValidIsEncoded(s: seq<Byte>) returns (us: seq<Utf8.Uchar>)
    requires Octets(s)
    ensures s == Utf8.EncodeAll(us) && forall u <- us :: IsScalar(u)
    decreases |s|
  {
    hide Utf8.Encode, Char, CodePoint;
    us := [];
    if s != [] {
      var n :| 1 <= n <= |s| && Char(s[..n]) && Octets(s[n..]);
      ShortChar(s[..n]);
      CharSpells(s[..n]);
      var rest := ValidIsEncoded(s[n..]);
      us := [CodePoint(s[..n])] + rest;
      assert us[1..] == rest && s == s[..n] + s[n..];
    }
  }

  lemma ShortChar(s: seq<Byte>)
    requires Char(s)
    ensures 1 <= |s| <= 4
  {
  }

  /** The bytes accepted here are exactly the UTF-8 of Unicode scalar values, as the other UTF-8 module of
      the repository encodes them. */
  lemma OctetsIffScalars(s: seq<Byte>)
    ensures Octets(s) <==> exists us: seq<Utf8.Uchar> :: s == Utf8.EncodeAll(us) && forall u <- us :: IsScalar(u)
  {
    if Octets(s) {
      var us := ValidIsEncoded(s);
    }
    forall us: seq<Utf8.Uchar> | s == Utf8.EncodeAll(us) && forall u <- us :: IsScalar(u) ensures Octets(s) {
      EncodedIsValid(us);
    }
  }

  /** So of what `UTF8.validate` accepts, it refuses exactly the strings with a surrogate or a code
      point past U+10FFFF. */
  lemma AgainstUtf8(s: seq<Byte>)
    ensures Octets(s) <==> Utf8.Validate(s) && Utf8.Iter(s).Some? && forall u <- Utf8.Iter(s).value :: IsScalar(u)
  {
    hide Octets, Utf8.EncodeAll, Utf8.Validate, Utf8.Iter;
    Utf8.ValidIffEncoded(s);
    if Octets(s) {
      var us := ValidIsEncoded(s);
      assert Utf8.Iter(s).value == us;
    } else if Utf8.Validate(s) {
      var us: seq<Utf8.Uchar> :| s == Utf8.EncodeAll(us);
      assert Utf8.Iter(s).value == us;
      if forall u <- us :: IsScalar(u) { EncodedIsValid(us); }
    }
  }
}
