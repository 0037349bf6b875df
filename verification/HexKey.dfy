/** The hex text of an entry key: map key in memory, and part of the entry's AAD. */
module HexKey {
  import opened Binary
  import opened Results

  const ENTRY_KEY_LEN := 32

  /** The lower-case ASCII digit of a value below 16. */
  function Digit(v: nat): byte
    requires v < 16
  {
    if v < 10 then (48 + v) as byte else (87 + v) as byte
  }

  function HexDigit(c: byte): (v: Option<byte>)
    ensures v.Some? ==> v.value < 16
  {
    if 48 <= c <= 57 then Some(c - 48)
    else if 97 <= c <= 102 then Some(c - 97 + 10)
    else None
  }

  /** Two lower-case digits for each byte. */
  function Hex(key: Bytes): (h: Bytes)
    ensures |h| == 2 * |key|
  {
    if key == [] then []
    else
      var last := key[|key| - 1] as nat;
      Hex(key[..|key| - 1]) + [Digit(last / 16), Digit(last % 16)]
  }

  /** One more byte from two more digits. */
  function PushByte(k: Option<Bytes>, hi: Option<byte>, lo: Option<byte>): (r: Option<Bytes>)
    requires (hi.Some? ==> hi.value < 16) && (lo.Some? ==> lo.value < 16)
    ensures r.Some? ==> k.Some? && |r.value| == |k.value| + 1
  {
    if k.None? || hi.None? || lo.None? then None
    else Some(k.value + [(hi.value as int * 16 + lo.value as int) as byte])
  }

  /** The bytes whose digits are `h`, a text of even length. */
  function Unhex(h: Bytes): (k: Option<Bytes>)
    requires |h| % 2 == 0
    ensures k.Some? ==> |k.value| == |h| / 2
  {
    if h == [] then Some([])
    else
      var n := |h| - 2;
      PushByte(Unhex(h[..n]), HexDigit(h[n]), HexDigit(h[n + 1]))
  }

  function ParseKey(h: Bytes): (k: Option<Bytes>)
    ensures k.Some? ==> |k.value| == ENTRY_KEY_LEN
  {
    if |h| != 2 * ENTRY_KEY_LEN then None else Unhex(h)
  }

  lemma DigitsOfByte(b: byte)
    ensures HexDigit(Digit(b as nat / 16)) == Some((b as nat / 16) as byte)
    ensures HexDigit(Digit(b as nat % 16)) == Some((b as nat % 16) as byte)
  {
  }

  lemma HexStep(key: Bytes, b: byte)
    ensures Hex(key + [b]) == Hex(key) + [Digit(b as nat / 16), Digit(b as nat % 16)]
  {
  }

  lemma UnhexStep(h: Bytes, c: byte, d: byte)
    requires |h| % 2 == 0
    ensures Unhex(h + [c, d]) == PushByte(Unhex(h), HexDigit(c), HexDigit(d))
  {
  }

  lemma EmptyTexts()
    ensures Unhex([]) == Some([]) && Hex([]) == []
  {
  }

  lemma {:induction false} UnhexHex(key: Bytes)
    ensures Unhex(Hex(key)) == Some(key)
  {
    hide Hex, Unhex, Digit, HexDigit;
    EmptyTexts();
    if key != [] {
      var n := |key| - 1;
      assert key == key[..n] + [key[n]];
      UnhexHex(key[..n]);
      DigitsOfByte(key[n]);
      HexStep(key[..n], key[n]);
      UnhexStep(Hex(key[..n]), Digit(key[n] as nat / 16), Digit(key[n] as nat % 16));
    }
  }

  lemma DigitOfValue(c: byte)
    requires HexDigit(c).Some?
    ensures Digit(HexDigit(c).value as nat) == c
  {
  }

  lemma PushedHex(k: Bytes, c: byte, d: byte)
    requires HexDigit(c).Some? && HexDigit(d).Some?
    ensures Hex(PushByte(Some(k), HexDigit(c), HexDigit(d)).value) == Hex(k) + [c, d]
  {
    hide Hex, Digit, HexDigit;
    DigitOfValue(c);
    DigitOfValue(d);
    HexStep(k, (HexDigit(c).value as int * 16 + HexDigit(d).value as int) as byte);
  }

  lemma {:induction false} HexUnhex(h: Bytes)
    requires |h| % 2 == 0
    requires Unhex(h).Some?
    ensures Hex(Unhex(h).value) == h
  {
    hide Hex, Unhex, HexDigit;
    EmptyTexts();
    if h != [] {
      var n := |h| - 2;
      assert h == h[..n] + [h[n], h[n + 1]];
      UnhexStep(h[..n], h[n], h[n + 1]);
      HexUnhex(h[..n]);
      PushedHex(Unhex(h[..n]).value, h[n], h[n + 1]);
    }
  }

  lemma {:induction false} UnhexPrefix(h: Bytes, n: nat)
    requires |h| % 2 == 0 && 2 * n <= |h|
    requires Unhex(h[..2 * n]) == None
    ensures Unhex(h) == None
    decreases |h|
  {
    if 2 * n == |h| {
      assert h[..2 * n] == h;
    } else {
      assert h[..|h| - 2][..2 * n] == h[..2 * n];
      UnhexPrefix(h[..|h| - 2], n);
    }
  }

  /** `ParseKey` accepts exactly the texts `Hex` prints for 32-byte keys, and recovers the key. */
  lemma KeyTextExact(h: Bytes, k: Bytes)
    ensures ParseKey(h) == Some(k) <==> |k| == ENTRY_KEY_LEN && h == Hex(k)
  {
    UnhexHex(k);
    if |h| == 2 * ENTRY_KEY_LEN && Unhex(h).Some? {
      HexUnhex(h);
    }
  }

  lemma HexInjective(a: Bytes, b: Bytes)
    requires Hex(a) == Hex(b)
    ensures a == b
  {
    UnhexHex(a);
    UnhexHex(b);
  }

  /** Of the texts of even length, exactly those of digits 0-9 and a-f are accepted. */
  lemma {:induction false} UnhexAccepts(h: Bytes)
    requires |h| % 2 == 0
    ensures Unhex(h).Some? <==> forall i :: 0 <= i < |h| ==> 48 <= h[i] <= 57 || 97 <= h[i] <= 102
  {
    if h != [] {
      var n := |h| - 2;
      UnhexAccepts(h[..n]);
      assert forall i :: 0 <= i < n ==> h[..n][i] == h[i];
      if Unhex(h[..n]).Some? && HexDigit(h[n]).Some? && HexDigit(h[n + 1]).Some? {
        forall i | 0 <= i < |h| ensures 48 <= h[i] <= 57 || 97 <= h[i] <= 102 {
          if i < n { assert h[..n][i] == h[i]; }
        }
      }
    }
  }

  method KeyToHex(key: Bytes) returns (hex: Bytes)
    ensures hex == Hex(key)
  {
    hex := [];
    for i := 0 to |key|
      invariant hex == Hex(key[..i])
    {
      var b := key[i] as nat;
      assert key[..i + 1][..i] == key[..i];
      hex := hex + [Digit(b / 16), Digit(b % 16)];
    }
    assert key[..|key|] == key;
  }

  method HexToKey(hex: Bytes) returns (r: Option<Bytes>)
    ensures r == ParseKey(hex)
  {
    hide Unhex, HexDigit;
    if |hex| != ENTRY_KEY_LEN * 2 {
      return None;
    }
    var key := new byte[ENTRY_KEY_LEN](i => 0);
    EmptyTexts();
    for i := 0 to ENTRY_KEY_LEN
      invariant Unhex(hex[..2 * i]) == Some(key[..i])
    {
      assert hex[..2 * (i + 1)] == hex[..2 * i] + [hex[2 * i], hex[2 * i + 1]];
      UnhexStep(hex[..2 * i], hex[2 * i], hex[2 * i + 1]);
      var hi := HexDigit(hex[2 * i]);
      var lo := HexDigit(hex[2 * i + 1]);
      if hi.None? || lo.None? {
        UnhexPrefix(hex, i + 1);
        return None;
      }
      key[i] := (hi.value as int * 16 + lo.value as int) as byte;
      assert key[..i + 1] == key[..i] + [key[i]];
    }
    assert hex[..2 * ENTRY_KEY_LEN] == hex;
    assert key[..ENTRY_KEY_LEN] == key[..];
    r := Some(key[..]);
  }
}
