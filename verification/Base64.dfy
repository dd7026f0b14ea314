/** The Base64 codec of websocket/do_string.h (section 4 of RFC 4648) on octets as 8-bit words. */
module Base64 {
  import Seqs

  type octet = bv8

  // ----- alphabet -------------------------------------------------------------------------

  const UPPER := "ABCDEFGHIJKLMNOPQRSTUVWXYZ"
  const LOWER := "abcdefghijklmnopqrstuvwxyz"
  const DIGITS := "0123456789+/"

  function Alphabet(): (s: string)
    ensures |s| == 64
  {
    UPPER + LOWER + DIGITS
  }

  predicate IsBase64(c: char) {
    'A' <= c <= 'Z' || 'a' <= c <= 'z' || '0' <= c <= '9' || c == '+' || c == '/'
  }

  function FindFrom(c: char, i: nat): (r: int)
    requires i <= 64
    ensures -1 <= r < 64
    decreases 64 - i
  {
    if i == 64 then -1 else if Alphabet()[i] == c then i else FindFrom(c, i + 1)
  }

  /** base64_chars.find stored in an unsigned char: a character that is not found becomes 255. */
  function Find(c: char): (r: octet) {
    var i := FindFrom(c, 0);
    if i == -1 then 255 else i as octet
  }

  function Symbol(x: octet): (c: char)
    requires x < 64
  {
    Alphabet()[x as int]
  }

  /** The place of a character in the alphabet, by range. */
  function Place(c: char): (i: int) {
    if 'A' <= c <= 'Z' then c as int - 65
    else if 'a' <= c <= 'z' then c as int - 71
    else if '0' <= c <= '9' then c as int + 4
    else if c == '+' then 62 else 63
  }

  lemma UpperAt(i: nat)
    requires i < 26
    ensures UPPER[i] as int == 65 + i
  {
  }

  lemma LowerAt(i: nat)
    requires i < 26
    ensures LOWER[i] as int == 97 + i
  {
  }

  lemma DigitsAt(i: nat)
    requires i < 12
    ensures DIGITS[i] as int == if i < 10 then 48 + i else if i == 10 then 43 else 47
  {
  }

  lemma AlphabetAt(i: nat)
    requires i < 64
    ensures IsBase64(Alphabet()[i]) && Place(Alphabet()[i]) == i
  {
    if i < 26 { UpperAt(i); } else if i < 52 { LowerAt(i - 26); } else { DigitsAt(i - 52); }
  }

  lemma {:induction false} FindFromAt(i: nat, j: nat)
    requires j <= i < 64
    ensures FindFrom(Alphabet()[i], j) == i
    decreases i - j
  {
    if j < i {
      AlphabetAt(i);
      AlphabetAt(j);
      FindFromAt(i, j + 1);
    }
  }

  /** Looking a symbol up gives its value back. */
  lemma FindSymbol(x: octet)
    requires x < 64
    ensures IsBase64(Symbol(x)) && Find(Symbol(x)) == x
  {
    AlphabetAt(x as int);
    FindFromAt(x as int, 0);
  }

  // ----- groups ---------------------------------------------------------------------------

  function Enc0(a: octet): (r: octet) ensures r < 64 { (a & 0xfc) >> 2 }
  function Enc1(a: octet, b: octet): (r: octet) ensures r < 64 { ((a & 0x03) << 4) + ((b & 0xf0) >> 4) }
  function Enc2(b: octet, c: octet): (r: octet) ensures r < 64 { ((b & 0x0f) << 2) + ((c & 0xc0) >> 6) }
  function Enc3(c: octet): (r: octet) ensures r < 64 { c & 0x3f }

  function Dec0(w: octet, x: octet): (r: octet) { (w << 2) + ((x & 0x30) >> 4) }
  function Dec1(x: octet, y: octet): (r: octet) { ((x & 0xf) << 4) + ((y & 0x3c) >> 2) }
  function Dec2(y: octet, z: octet): (r: octet) { ((y & 0x3) << 6) + z }

  lemma GroupRoundTrip(a: octet, b: octet, c: octet)
    ensures Dec0(Enc0(a), Enc1(a, b)) == a
    ensures Dec1(Enc1(a, b), Enc2(b, c)) == b
    ensures Dec2(Enc2(b, c), Enc3(c)) == c
  {
  }

  /** char_array_4 from char_array_3. */
  function Sextets(a: octet, b: octet, c: octet): (r: seq<octet>)
    ensures |r| == 4 && forall i :: 0 <= i < 4 ==> r[i] < 64
  {
    [Enc0(a), Enc1(a, b), Enc2(b, c), Enc3(c)]
  }

  function Group(a: octet, b: octet, c: octet): (r: string)
    ensures |r| == 4
  {
    var v := Sextets(a, b, c);
    seq(4, i requires 0 <= i < 4 => Symbol(v[i]))
  }

  function Ungroup(w: octet, x: octet, y: octet, z: octet): (r: seq<octet>)
    ensures |r| == 3
  {
    [Dec0(w, x), Dec1(x, y), Dec2(y, z)]
  }

  // ----- whole strings --------------------------------------------------------------------

  function Encode(s: seq<octet>): (r: string) {
    if |s| >= 3 then Group(s[0], s[1], s[2]) + Encode(s[3..])
    else if |s| == 2 then Group(s[0], s[1], 0)[..3] + "="
    else if |s| == 1 then Group(s[0], 0, 0)[..2] + "=="
    else ""
  }

  /** How many characters of the alphabet a string starts with, at most four. */
  function Leading(s: string): (n: nat)
    ensures n <= |s| && n <= 4
    ensures forall i :: 0 <= i < n ==> IsBase64(s[i])
    ensures n < 4 && n < |s| ==> !IsBase64(s[n])
  {
    if |s| == 0 || !IsBase64(s[0]) then 0
    else if |s| == 1 || !IsBase64(s[1]) then 1
    else if |s| == 2 || !IsBase64(s[2]) then 2
    else if |s| == 3 || !IsBase64(s[3]) then 3
    else 4
  }

  /** The last, incomplete group: n characters, with `missing` as the value of those that are not there. */
  function Rest(s: string, n: nat, missing: octet): (r: seq<octet>)
    requires n < 4 && n <= |s|
  {
    var v := (i: nat) => if i < n && i < |s| then Find(s[i]) else missing;
    if n == 0 then [] else Ungroup(v(0), v(1), v(2), v(3))[..n - 1]
  }

  function Decode(s: string): (r: seq<octet>) {
    var n := Leading(s);
    if n == 4 then Ungroup(Find(s[0]), Find(s[1]), Find(s[2]), Find(s[3])) + Decode(s[4..])
    else Rest(s, n, Find(0 as char))
  }

  /** The values looked up for missing characters never reach the result. */
  lemma MissingUnused(s: string, n: nat, m1: octet, m2: octet)
    requires n < 4 && n <= |s|
    ensures Rest(s, n, m1) == Rest(s, n, m2)
  {
  }

  lemma {:induction false} EncodeLength(s: seq<octet>)
    ensures |Encode(s)| == 4 * ((|s| + 2) / 3)
  {
    hide Group;
    if |s| >= 3 {
      EncodeLength(s[3..]);
      assert (|s| + 2) / 3 == (|s| - 3 + 2) / 3 + 1;
    }
  }

  lemma FullGroup(a: octet, b: octet, c: octet, t: string)
    ensures Decode(Group(a, b, c) + t) == [a, b, c] + Decode(t)
  {
    var s := Group(a, b, c) + t;
    FindSymbol(Enc0(a));
    FindSymbol(Enc1(a, b));
    FindSymbol(Enc2(b, c));
    FindSymbol(Enc3(c));
    GroupRoundTrip(a, b, c);
    assert s[0] == Symbol(Enc0(a)) && s[1] == Symbol(Enc1(a, b));
    assert s[2] == Symbol(Enc2(b, c)) && s[3] == Symbol(Enc3(c));
    assert s[4..] == t;
  }

  lemma TwoOctets(a: octet, b: octet)
    ensures Decode(Group(a, b, 0)[..3] + "=") == [a, b]
  {
    FindSymbol(Enc0(a));
    FindSymbol(Enc1(a, b));
    FindSymbol(Enc2(b, 0));
    GroupRoundTrip(a, b, 0);
  }

  lemma OneOctet(a: octet)
    ensures Decode(Group(a, 0, 0)[..2] + "==") == [a]
  {
    FindSymbol(Enc0(a));
    FindSymbol(Enc1(a, 0));
    GroupRoundTrip(a, 0, 0);
  }

  lemma NoOctets()
    ensures Decode("") == []
  {
  }

  /** Every string of octets is recovered. */
  lemma {:induction false} RoundTrip(s: seq<octet>)
    ensures Decode(Encode(s)) == s
  {
    hide Group, Decode;
    if |s| >= 3 {
      RoundTrip(s[3..]);
      FullGroup(s[0], s[1], s[2], Encode(s[3..]));
      assert s == [s[0], s[1], s[2]] + s[3..];
    } else if |s| == 2 {
      TwoOctets(s[0], s[1]);
    } else if |s| == 1 {
      OneOctet(s[0]);
    } else {
      NoOctets();
    }
  }

  /** The bits of three octets, in order, are the bits of the four symbols' values. */
  lemma GroupBits(a: octet, b: octet, c: octet)
    ensures (a as bv24 << 16) | (b as bv24 << 8) | c as bv24 ==
            (Enc0(a) as bv24 << 18) | (Enc1(a, b) as bv24 << 12) | (Enc2(b, c) as bv24 << 6) | Enc3(c) as bv24
  {
  }

  // ----- the loops ------------------------------------------------------------------------

  /** char_array_4 from char_array_3, and its first n symbols appended. */
  method AppendGroup(ret: string, three: array<octet>, n: nat) returns (r: string)
    requires three.Length == 3 && n <= 4
    ensures r == ret + Group(three[0], three[1], three[2])[..n]
  {
    hide Sextets, Symbol;
    var four := Sextets(three[0], three[1], three[2]);
    ghost var g := Group(three[0], three[1], three[2]);
    r := ret;
    for j := 0 to n
      invariant r == ret + g[..j]
    {
      r := r + [Symbol(four[j])];
      assert g[..j + 1] == g[..j] + [Symbol(four[j])];
    }
  }

  /** char_array_3 from the values of char_array_4, and its first n octets appended. */
  method AppendOctets(ret: seq<octet>, four: array<octet>, n: nat) returns (r: seq<octet>)
    requires four.Length == 4 && n <= 3
    ensures r == ret + Ungroup(four[0], four[1], four[2], four[3])[..n]
  {
    var three := [Dec0(four[0], four[1]), Dec1(four[1], four[2]), Dec2(four[2], four[3])];
    r := ret;
    for j := 0 to n
      invariant r == ret + three[..j]
    {
      r := r + [three[j]];
      assert three[..j + 1] == three[..j] + [three[j]];
    }
  }

  lemma EncodeHead(s: seq<octet>, p: nat)
    requires p + 3 <= |s|
    ensures Encode(s[p..]) == Group(s[p], s[p + 1], s[p + 2])[..4] + Encode(s[p + 3..])
  {
    hide Group;
    assert s[p..][3..] == s[p + 3..];
  }

  method EncodeString(bytes: seq<octet>) returns (ret: string)
    ensures ret == Encode(bytes)
  {
    hide Group, Encode;
    var three := new octet[3];
    var i, k := 0, 0;
    ghost var p := 0;
    ret := "";
    assert bytes[0..] == bytes;
    while k < |bytes|
      invariant i < 3 && p + i == k <= |bytes|
      invariant forall j :: 0 <= j < i ==> three[j] == bytes[p + j]
      invariant ret + Encode(bytes[p..]) == Encode(bytes)
    {
      three[i] := bytes[k];
      i, k := i + 1, k + 1;
      if i == 3 {
        ret := EncodeGroup(bytes, p, ret, three);
        i, p := 0, k;
      }
    }
    ret := EncodeTail(bytes[p..], ret, three, i);
  }

  /** A full char_array_3 becomes four symbols. */
  method EncodeGroup(ghost bytes: seq<octet>, ghost p: nat, ret: string, three: array<octet>) returns (r: string)
    requires three.Length == 3 && p + 3 <= |bytes| && forall j :: 0 <= j < 3 ==> three[j] == bytes[p + j]
    ensures r + Encode(bytes[p + 3..]) == ret + Encode(bytes[p..])
  {
    hide Group, Encode;
    EncodeHead(bytes, p);
    Seqs.Assoc(ret, Group(three[0], three[1], three[2])[..4], Encode(bytes[p + 3..]));
    r := AppendGroup(ret, three, 4);
  }

  /** What base64_encode does after its loop with the i octets left over. */
  method EncodeTail(ghost left: seq<octet>, ret: string, three: array<octet>, i: nat) returns (r: string)
    requires three.Length == 3 && i < 3 && i == |left|
    requires forall j :: 0 <= j < i ==> three[j] == left[j]
    modifies three
    ensures r == ret + Encode(left)
  {
    hide Group;
    r := ret;
    if i != 0 {
      for j := i to 3
        invariant forall k :: 0 <= k < i ==> three[k] == left[k]
        invariant forall k :: i <= k < j ==> three[k] == 0
      {
        three[j] := 0;
      }
      r := AppendGroup(ret, three, i + 1);
      ghost var before := r;
      for n := i to 3
        invariant r == before + (if n == i then "" else if n == i + 1 then "=" else "==")
      {
        r := r + "=";
      }
    }
  }

  lemma DecodeHead(s: string, p: nat)
    requires p + 4 <= |s| && forall j :: p <= j < p + 4 ==> IsBase64(s[j])
    ensures Decode(s[p..]) ==
            Ungroup(Find(s[p]), Find(s[p + 1]), Find(s[p + 2]), Find(s[p + 3]))[..3] + Decode(s[p + 4..])
  {
    hide Ungroup, Find;
    assert s[p..][4..] == s[p + 4..];
  }

  /** for (i = 0; i < 4; i++) char_array_4[i] = base64_chars.find(char_array_4[i]). */
  method LookUp(chars: array<char>, four: array<octet>)
    requires chars.Length == 4 && four.Length == 4 && chars as object != four as object
    modifies four
    ensures forall j :: 0 <= j < 4 ==> four[j] == Find(chars[j])
  {
    hide Find;
    for j := 0 to 4
      invariant forall k :: 0 <= k < j ==> four[k] == Find(chars[k])
    {
      four[j] := Find(chars[j]);
    }
  }

  method DecodeString(s: string) returns (ret: seq<octet>)
    ensures ret == Decode(s)
  {
    hide Ungroup, Find, Decode, IsBase64;
    var chars, four := new char[4], new octet[4];
    var i, k := 0, 0;
    ret := [];
    while k < |s| && s[k] != '=' && IsBase64(s[k])
      invariant i < 4 && i <= k <= |s|
      invariant forall j :: 0 <= j < i ==> chars[j] == s[k - i + j]
      invariant forall j :: k - i <= j < k ==> IsBase64(s[j])
      invariant ret + Decode(s[k - i..]) == Decode(s)
    {
      chars[i] := s[k];
      i, k := i + 1, k + 1;
      if i == 4 {
        LookUp(chars, four);
        DecodeHead(s, k - 4);
        Seqs.Assoc(ret, Ungroup(four[0], four[1], four[2], four[3])[..3], Decode(s[k..]));
        ret := AppendOctets(ret, four, 3);
        i := 0;
      }
    }
    NotPadding();
    ret := DecodeTail(s[k - i..], ret, chars, four, i);
  }

  lemma NotPadding()
    ensures !IsBase64('=')
  {
  }

  /** What base64_decode does after its loop with the i characters left over. */
  method DecodeTail(ghost left: string, ret: seq<octet>, chars: array<char>, four: array<octet>, i: nat)
    returns (r: seq<octet>)
    requires chars.Length == 4 && four.Length == 4 && chars as object != four as object
    requires i < 4 && i <= |left|
    requires forall j :: 0 <= j < i ==> chars[j] == left[j] && IsBase64(left[j])
    requires i < |left| ==> !IsBase64(left[i])
    modifies chars, four
    ensures r == ret + Decode(left)
  {
    hide Ungroup, Find, IsBase64;
    r := ret;
    if i != 0 {
      for j := i to 4
        invariant forall k :: 0 <= k < i ==> chars[k] == left[k]
        invariant forall k :: i <= k < j ==> chars[k] == 0 as char
      {
        chars[j] := 0 as char;
      }
      LookUp(chars, four);
      r := AppendOctets(ret, four, i - 1);
    }
    assert Leading(left) == i;
  }
}
