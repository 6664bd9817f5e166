/** The Option type the data-URI code returns. */
module Wrappers {
  datatype Option<+T> = None | Some(value: T)
}

/** `atob`: the forgiving-base64 decode of the WHATWG Infra standard, whose
    alphabet and bit layout are those of section 4 of RFC 4648, returning a
    "binary string" (one character per byte). `Btoa` is the RFC 4648 encoder
    with padding, the partner that `atob` inverts. */
module Base64 {
  import opened Wrappers

  /** ASCII whitespace of the Infra standard: TAB, LF, FF, CR and SPACE. */
  predicate IsAsciiWhitespace(c: char) {
    c == '\t' || c == '\n' || c == '\U{000C}' || c == '\r' || c == ' '
  }

  predicate IsBase64Char(c: char) {
    'A' <= c <= 'Z' || 'a' <= c <= 'z' || '0' <= c <= '9' || c == '+' || c == '/'
  }

  predicate AllBase64(t: string) {
    forall i :: 0 <= i < |t| ==> IsBase64Char(t[i])
  }

  /** A string every character of which is a byte value, as `atob` returns. */
  predicate IsBinary(s: string) {
    forall i :: 0 <= i < |s| ==> s[i] as int < 256
  }

  predicate AllSextets(v: seq<nat>) {
    forall i :: 0 <= i < |v| ==> v[i] < 64
  }

  /** The 6-bit value of an alphabet character (Table 1 of RFC 4648). */
  function SextetOf(c: char): (v: nat)
    requires IsBase64Char(c)
    ensures v < 64
  {
    if 'A' <= c <= 'Z' then c as int - 'A' as int
    else if 'a' <= c <= 'z' then c as int - 'a' as int + 26
    else if '0' <= c <= '9' then c as int - '0' as int + 52
    else if c == '+' then 62
    else 63
  }

  /** The alphabet character of a 6-bit value; `SextetOf` undoes it. */
  function CharOfSextet(v: nat): (c: char)
    requires v < 64
    ensures IsBase64Char(c) && SextetOf(c) == v
  {
    if v < 26 then ('A' as int + v) as char
    else if v < 52 then ('a' as int + v - 26) as char
    else if v < 62 then ('0' as int + v - 52) as char
    else if v == 62 then '+'
    else '/'
  }

  /** The 6-bit values of alphabet characters, in order. */
  function Sextets(t: string): (v: seq<nat>)
    requires AllBase64(t)
    ensures |v| == |t| && AllSextets(v)
  {
    seq(|t|, i requires 0 <= i < |t| => SextetOf(t[i]))
  }

  /** The alphabet characters that spell 6-bit values. */
  function Spell(v: seq<nat>): (t: string)
    requires AllSextets(v)
    ensures |t| == |v| && AllBase64(t)
  {
    seq(|v|, i requires 0 <= i < |v| => CharOfSextet(v[i]))
  }

  /** Reading the spelling of values gives the values back. */
  lemma SextetsSpell(v: seq<nat>)
    requires AllSextets(v)
    ensures Sextets(Spell(v)) == v
  {
    var t := Spell(v);
    forall i | 0 <= i < |v|
      ensures Sextets(t)[i] == v[i]
    {
      assert t[i] == CharOfSextet(v[i]);
    }
  }

  function RemoveWhitespace(s: string): (r: string)
    ensures forall i :: 0 <= i < |r| ==> !IsAsciiWhitespace(r[i])
    decreases |s|
  {
    if s == [] then [] else (if IsAsciiWhitespace(s[0]) then [] else [s[0]]) + RemoveWhitespace(s[1..])
  }

  /** When the length is a multiple of four, one or two trailing `=` go. */
  function StripPadding(t: string): string {
    if |t| % 4 == 0 && |t| >= 2 && t[|t| - 2] == '=' && t[|t| - 1] == '=' then t[..|t| - 2]
    else if |t| % 4 == 0 && |t| >= 1 && t[|t| - 1] == '=' then t[..|t| - 1]
    else t
  }

  /** Each group of four values gives three bytes; a final group of three
      gives two and one of two gives one, the leftover bits dropped. */
  function DecodeSextets(v: seq<nat>): (r: string)
    requires AllSextets(v)
    requires |v| % 4 != 1
    ensures IsBinary(r)
    decreases |v|
  {
    if |v| < 2 then []
    else
      var x := v[0] * 4 + v[1] / 16;
      if |v| == 2 then [x as char]
      else
        var y := (v[1] % 16) * 16 + v[2] / 4;
        if |v| == 3 then [x as char, y as char]
        else [x as char, y as char, ((v[2] % 4) * 64 + v[3]) as char] + DecodeSextets(v[4..])
  }

  /** `atob(data)`: `None` where the browser throws InvalidCharacterError. */
  function Atob(data: string): (r: Option<string>)
    ensures r.Some? ==> IsBinary(r.value)
  {
    var t := StripPadding(RemoveWhitespace(data));
    if |t| % 4 == 1 then None
    else if !AllBase64(t) then None
    else Some(DecodeSextets(Sextets(t)))
  }

  /** Three bytes as four 6-bit values: 24 bits cut into pieces. */
  function EncodeGroup(x: nat, y: nat, z: nat): (g: seq<nat>)
    requires x < 256 && y < 256 && z < 256
    ensures |g| == 4 && AllSextets(g)
  {
    [x / 4, (x % 4) * 16 + y / 16, (y % 16) * 4 + z / 64, z % 64]
  }

  /** One more group of three bytes is one more group of four values. */
  lemma GroupLength(n: nat, m: nat)
    requires n >= 3
    requires m % 4 == if (n - 3) % 3 == 0 then 0 else (n - 3) % 3 + 1
    ensures (4 + m) % 4 == if n % 3 == 0 then 0 else n % 3 + 1
  {
  }

  /** The 6-bit values of the encoding, before spelling and padding; a final
      one or two bytes are filled out with zero bits. */
  function EncodeSextets(s: string): (v: seq<nat>)
    requires IsBinary(s)
    ensures AllSextets(v)
    ensures |v| % 4 == if |s| % 3 == 0 then 0 else |s| % 3 + 1
    decreases |s|
  {
    if s == [] then []
    else
      var x := s[0] as int;
      if |s| == 1 then [x / 4, (x % 4) * 16]
      else
        var y := s[1] as int;
        if |s| == 2 then [x / 4, (x % 4) * 16 + y / 16, (y % 16) * 4]
        else
          var group, rest := EncodeGroup(x, y, s[2] as int), EncodeSextets(s[3..]);
          GroupLength(|s|, |rest|);
          group + rest
  }

  function Padding(n: nat): string {
    if n % 3 == 1 then "==" else if n % 3 == 2 then "=" else ""
  }

  /** `btoa(s)`: base64 with padding, section 4 of RFC 4648. */
  function Btoa(s: string): (r: string)
    requires IsBinary(s)
  {
    Spell(EncodeSextets(s)) + Padding(|s|)
  }

  /** Cutting off the low bits of a value whose low part is `t`. */
  lemma HighLow(r: nat, t: nat, k: nat)
    requires k == 4 || k == 16 || k == 64
    requires t < k
    ensures (r * k + t) / k == r && (r * k + t) % k == t
  {
  }

  /** The three bytes come back out of their four values. */
  lemma GroupDecodes(x: nat, y: nat, z: nat)
    requires x < 256 && y < 256 && z < 256
    ensures var g := EncodeGroup(x, y, z);
      g[0] * 4 + g[1] / 16 == x && (g[1] % 16) * 16 + g[2] / 4 == y && (g[2] % 4) * 64 + g[3] == z
  {
    HighLow(x % 4, y / 16, 16);
    HighLow(y % 16, z / 64, 4);
  }

  /** A leading group of four values decodes to its three bytes. */
  lemma DecodeFirstGroup(v: seq<nat>, x: nat, y: nat, z: nat)
    requires x < 256 && y < 256 && z < 256
    requires AllSextets(v) && |v| % 4 != 1 && |v| >= 4
    requires v[..4] == EncodeGroup(x, y, z)
    ensures DecodeSextets(v) == [x as char, y as char, z as char] + DecodeSextets(v[4..])
  {
    var g := EncodeGroup(x, y, z);
    GroupDecodes(x, y, z);
    assert v[0] == g[0] && v[1] == g[1] && v[2] == g[2] && v[3] == g[3];
  }

  /** Decoding the values gives back the bytes they encode. */
  lemma {:induction false} DecodeEncode(s: string)
    requires IsBinary(s)
    ensures DecodeSextets(EncodeSextets(s)) == s
    decreases |s|
  {
    var v := EncodeSextets(s);
    if |s| >= 3 {
      var x, y, z := s[0] as int, s[1] as int, s[2] as int;
      assert v == EncodeGroup(x, y, z) + EncodeSextets(s[3..]);
      assert v[..4] == EncodeGroup(x, y, z);
      assert v[4..] == EncodeSextets(s[3..]);
      DecodeFirstGroup(v, x, y, z);
      DecodeEncode(s[3..]);
      assert s == [s[0], s[1], s[2]] + s[3..];
    } else if |s| == 2 {
      HighLow(s[0] as int % 4, s[1] as int / 16, 16);
      assert s == [s[0], s[1]];
    } else if |s| == 1 {
      assert s == [s[0]];
    }
  }

  lemma {:induction false} RemoveWhitespaceKeeps(s: string)
    requires forall i :: 0 <= i < |s| ==> !IsAsciiWhitespace(s[i])
    ensures RemoveWhitespace(s) == s
    decreases |s|
  {
    if s != [] {
      RemoveWhitespaceKeeps(s[1..]);
    }
  }

  /** The encoding is spelled with alphabet characters and `=` only. */
  lemma BtoaAlphabet(s: string)
    requires IsBinary(s)
    ensures forall i :: 0 <= i < |Btoa(s)| ==> IsBase64Char(Btoa(s)[i]) || Btoa(s)[i] == '='
  {
    var core, full := Spell(EncodeSextets(s)), Btoa(s);
    forall i | 0 <= i < |full|
      ensures IsBase64Char(full[i]) || full[i] == '='
    {
      if i >= |core| {
        assert full[i] == Padding(|s|)[i - |core|];
      } else {
        assert full[i] == core[i];
      }
    }
  }

  /** Padding that completes a group of four is removed, and nothing else. */
  lemma StripPaddingOf(core: string, pad: string)
    requires AllBase64(core)
    requires pad == "" || pad == "=" || pad == "=="
    requires (|core| + |pad|) % 4 == 0
    requires pad == "=" ==> |core| % 4 == 3
    ensures StripPadding(core + pad) == core
  {
    var full := core + pad;
    if pad == "==" {
      assert full[|full| - 2] == '=' && full[|full| - 1] == '=';
      assert full[..|full| - 2] == core;
    } else if pad == "=" {
      assert full[|full| - 2] == core[|core| - 1];
      assert full[|full| - 1] == '=';
      assert full[..|full| - 1] == core;
    } else {
      assert full == core;
      if core != [] {
        assert IsBase64Char(core[|core| - 1]);
      }
    }
  }

  /** Removing the padding of the encoding leaves the spelled values. */
  lemma StripPaddingBtoa(s: string)
    requires IsBinary(s)
    ensures StripPadding(Btoa(s)) == Spell(EncodeSextets(s))
  {
    StripPaddingOf(Spell(EncodeSextets(s)), Padding(|s|));
  }

  /** `atob` undoes `btoa`: every byte string survives the round trip. */
  lemma AtobBtoa(s: string)
    requires IsBinary(s)
    ensures Atob(Btoa(s)) == Some(s)
  {
    var v := EncodeSextets(s);
    BtoaAlphabet(s);
    RemoveWhitespaceKeeps(Btoa(s));
    StripPaddingBtoa(s);
    SextetsSpell(v);
    DecodeEncode(s);
  }

  lemma {:induction false} RemoveWhitespaceHas(s: string, c: char)
    requires c in s && !IsAsciiWhitespace(c)
    ensures c in RemoveWhitespace(s)
    decreases |s|
  {
    if s[0] != c {
      assert c in s[1..];
      RemoveWhitespaceHas(s[1..], c);
    }
  }

  lemma StripPaddingHas(t: string, c: char)
    requires c in t && c != '='
    ensures c in StripPadding(t)
  {
    var i :| 0 <= i < |t| && t[i] == c;
    assert i < |StripPadding(t)| && StripPadding(t)[i] == c;
  }

  /** `atob` rejects input holding a character that is neither white space,
      nor in the alphabet, nor `=`. */
  lemma AtobRejectsStray(data: string, c: char)
    requires c in data
    requires !IsAsciiWhitespace(c) && !IsBase64Char(c) && c != '='
    ensures Atob(data) == None
  {
    RemoveWhitespaceHas(data, c);
    StripPaddingHas(RemoveWhitespace(data), c);
  }

  /** `atob` rejects input of 1 mod 4 characters, none white space or `=`. */
  lemma AtobRejectsLength(data: string)
    requires forall i :: 0 <= i < |data| ==> !IsAsciiWhitespace(data[i]) && data[i] != '='
    requires |data| % 4 == 1
    ensures Atob(data) == None
  {
    RemoveWhitespaceKeeps(data);
  }

  lemma {:induction false} RemoveWhitespaceConcat(a: string, b: string)
    ensures RemoveWhitespace(a + b) == RemoveWhitespace(a) + RemoveWhitespace(b)
    decreases |a|
  {
    if a == [] {
      assert a + b == b;
    } else {
      assert (a + b)[0] == a[0];
      assert (a + b)[1..] == a[1..] + b;
      RemoveWhitespaceConcat(a[1..], b);
    }
  }

  /** White space anywhere in the input is ignored. */
  lemma AtobIgnoresWhitespace(a: string, w: char, b: string)
    requires IsAsciiWhitespace(w)
    ensures Atob(a + [w] + b) == Atob(a + b)
  {
    assert RemoveWhitespace(a + [w] + b) == RemoveWhitespace(a + b) by {
      RemoveWhitespaceConcat(a + [w], b);
      RemoveWhitespaceConcat(a, [w]);
      RemoveWhitespaceConcat(a, b);
      assert RemoveWhitespace([w]) == [] by {
        assert [w][1..] == [];
      }
      assert RemoveWhitespace(a) + [] == RemoveWhitespace(a);
    }
  }

  /** Standard values: "QUJD" is the encoding of "ABC". */
  lemma AtobExample()
    ensures Atob("QUJD") == Some("ABC")
  {
    RemoveWhitespaceKeeps("QUJD");
    assert StripPadding("QUJD") == "QUJD";
    assert Sextets("QUJD") == [16, 20, 9, 3];
    assert DecodeSextets([16, 20, 9, 3]) == "ABC" by {
      assert [16, 20, 9, 3][4..] == [];
    }
  }
}
