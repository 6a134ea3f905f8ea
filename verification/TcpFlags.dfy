/** The comma-separated TCP flag text and the flag byte, in both directions. */
module TcpFlags {
  import opened Wrappers
  import opened Bytes
  import opened Text
  import opened Arithmetic

  const NAMES := ["FIN", "SYN", "RST", "PSH", "ACK", "URG", "ECE", "CWR"]

  function Mask(k: nat): (mask: nat)
    ensures mask > 0
  {
    if k == 0 then 1 else 2 * Mask(k - 1)
  }

  /** `bits & mask != 0` for the mask of bit `k`. */
  predicate Has(bits: nat, k: nat) { if k == 0 then bits % 2 == 1 else Has(bits / 2, k - 1) }

  /** The bits below position `k`. */
  function Low(bits: nat, k: nat): nat { if k == 0 then 0 else bits % 2 + 2 * Low(bits / 2, k - 1) }

  lemma {:induction false} BitSplit(bits: nat, k: nat)
    ensures Low(bits, k + 1) == Low(bits, k) + if Has(bits, k) then Mask(k) else 0
    ensures !Has(Low(bits, k), k)
  {
    if k > 0 { BitSplit(bits / 2, k - 1); }
  }

  lemma {:induction false} LowIsAll(bits: nat, k: nat)
    requires bits < Mask(k)
    ensures Low(bits, k) == bits
  {
    if k > 0 { LowIsAll(bits / 2, k - 1); }
  }

  /** The bit a token names, if any. */
  function BitOf(token: string): (k: Option<nat>)
    ensures k.Some? ==> k.value < 8
  {
    if token == "FIN" then Some(0) else if token == "SYN" then Some(1) else if token == "RST" then Some(2)
    else if token == "PSH" then Some(3) else if token == "ACK" then Some(4) else if token == "URG" then Some(5)
    else if token == "ECE" then Some(6) else if token == "CWR" then Some(7) else None
  }

  /** Adding a clear bit below position `n` stays below `2^n`. */
  lemma {:induction false} RoomForBit(bits: nat, k: nat, n: nat)
    requires k < n && !Has(bits, k) && bits < Mask(n)
    ensures bits + Mask(k) < Mask(n)
  {
    assert Mask(n) == 2 * Mask(n - 1);
    if k > 0 {
      assert Has(bits, k) == Has(bits / 2, k - 1) && Mask(k) == 2 * Mask(k - 1);
      RoomForBit(bits / 2, k - 1, n - 1);
    }
  }

  /** `bits |= mask`. */
  function SetBit(bits: byte, bit: Option<nat>): byte
    requires bit.Some? ==> bit.value < 8
  {
    if bit.None? || Has(bits, bit.value) then bits
    else
      assert Mask(8) == 0x100;
      RoomForBit(bits, bit.value, 8);
      bits + Mask(bit.value)
  }

  function TokensToByte(tokens: seq<string>): byte
  {
    if tokens == [] then 0
    else SetBit(TokensToByte(tokens[..|tokens| - 1]), BitOf(Upper(Strip(tokens[|tokens| - 1]))))
  }

  function Tokens(text: string): seq<string>
  {
    Split(seq(|text|, i requires 0 <= i < |text| => if text[i] == '|' then ',' else text[i]), ',')
  }

  function ParseFlags(text: Option<string>): byte
  {
    if text in {None, Some("")} then 0 else TokensToByte(Tokens(text.value))
  }

  /** `_parse_tcp_flags`. */
  method ParseTcpFlags(text: Option<string>) returns (bits: byte)
    ensures bits == ParseFlags(text)
  {
    if text in {None, Some("")} { return 0; }
    bits := 0;
    var tokens := Tokens(text.value);
    for i := 0 to |tokens|
      invariant bits == TokensToByte(tokens[..i])
    {
      assert tokens[..i + 1][..i] == tokens[..i];
      bits := SetBit(bits, BitOf(Upper(Strip(tokens[i]))));
    }
    assert tokens[..|tokens|] == tokens;
  }

  /** The names of the set bits among the first `k` masks. */
  function SetNames(bits: byte, k: nat): (names: seq<string>)
    requires k <= 8
  {
    if k == 0 then []
    else SetNames(bits, k - 1) + if Has(bits, k - 1) then [NAMES[k - 1]] else []
  }

  /** `_tcp_flags_str`. */
  function FlagText(bits: byte): string { Join(SetNames(bits, 8), ",") }

  predicate Canonical(text: string) { exists bits: byte :: text == FlagText(bits) }

  lemma {:induction false} SetNamesAreNames(bits: byte, k: nat)
    requires k <= 8
    ensures forall n :: n in SetNames(bits, k) ==> n in NAMES
  {
    if k > 0 { SetNamesAreNames(bits, k - 1); }
  }

  lemma NamesAreClean(k: nat)
    requires k < 8
    ensures Upper(Strip(NAMES[k])) == NAMES[k] && BitOf(NAMES[k]) == Some(k)
    ensures |NAMES[k]| == 3 && ',' !in NAMES[k] && '|' !in NAMES[k]
  {
    assert Strip(NAMES[k]) == NAMES[k];
    assert Upper(NAMES[k]) == NAMES[k];
  }

  lemma AppendName(tokens: seq<string>, k: nat)
    requires k < 8
    ensures TokensToByte(tokens + [NAMES[k]]) == SetBit(TokensToByte(tokens), Some(k))
  {
    NamesAreClean(k);
    assert (tokens + [NAMES[k]])[..|tokens|] == tokens;
  }

  lemma NoNames(bits: nat)
    ensures TokensToByte([]) == Low(bits, 0)
  {
  }

  /** Naming the low `k` bits and reading the names gives those bits. */
  lemma {:induction false} NamesToBits(bits: byte, k: nat)
    requires k <= 8
    ensures TokensToByte(SetNames(bits, k)) == Low(bits, k)
  {
    hide Has, Mask, Low, TokensToByte, Strip, Upper;
    if k == 0 {
      NoNames(bits);
    } else {
      NamesToBits(bits, k - 1);
      BitSplit(bits, k - 1);
      if Has(bits, k - 1) {
        AppendName(SetNames(bits, k - 1), k - 1);
      } else {
        assert SetNames(bits, k - 1) + [] == SetNames(bits, k - 1);
      }
    }
  }

  /** A flag's name stands in the text exactly when its bit is set; the bits are those of section 3.1 of RFC 9293. */
  lemma FlagNames(bits: byte)
    ensures var names := if bits == 0 then [] else Split(FlagText(bits), ',');
            && ("FIN" in names <==> bits % 2 == 1) && ("SYN" in names <==> bits / 2 % 2 == 1)
            && ("RST" in names <==> bits / 4 % 2 == 1) && ("PSH" in names <==> bits / 8 % 2 == 1)
            && ("ACK" in names <==> bits / 16 % 2 == 1) && ("URG" in names <==> bits / 32 % 2 == 1)
            && ("ECE" in names <==> bits / 64 % 2 == 1) && ("CWR" in names <==> bits / 128 % 2 == 1)
  {
    hide SetNames, Has, Split;
    TextSplits(bits);
    forall j | 0 <= j < 8
      ensures NAMES[j] in SetNames(bits, 8) <==> Has(bits, j)
    {
      NameIsSet(bits, j, 8);
    }
    assert NAMES[0] == "FIN" && NAMES[1] == "SYN" && NAMES[2] == "RST" && NAMES[3] == "PSH";
    assert NAMES[4] == "ACK" && NAMES[5] == "URG" && NAMES[6] == "ECE" && NAMES[7] == "CWR";
    BitsByDivision(bits);
  }

  lemma BitsByDivision(bits: byte)
    ensures Has(bits, 0) <==> bits % 2 == 1
    ensures Has(bits, 1) <==> bits / 2 % 2 == 1
    ensures Has(bits, 2) <==> bits / 4 % 2 == 1
    ensures Has(bits, 3) <==> bits / 8 % 2 == 1
    ensures Has(bits, 4) <==> bits / 16 % 2 == 1
    ensures Has(bits, 5) <==> bits / 32 % 2 == 1
    ensures Has(bits, 6) <==> bits / 64 % 2 == 1
    ensures Has(bits, 7) <==> bits / 128 % 2 == 1
  {
    hide Has;
    forall k: nat | k < 8
      ensures Has(bits, k) <==> bits / Mask(k) % 2 == 1
    {
      HasByDivision(bits, k);
    }
    Masks();
  }

  lemma Masks()
    ensures Mask(0) == 1 && Mask(1) == 2 && Mask(2) == 4 && Mask(3) == 8
    ensures Mask(4) == 16 && Mask(5) == 32 && Mask(6) == 64 && Mask(7) == 128
  {
  }

  lemma {:induction false} HasByDivision(bits: nat, k: nat)
    ensures Has(bits, k) <==> bits / Mask(k) % 2 == 1
  {
    if k > 0 {
      HasByDivision(bits / 2, k - 1);
      HalfFirst(bits, Mask(k - 1));
    }
  }

  lemma HalfFirst(n: nat, m: nat)
    requires m > 0
    ensures n / 2 / m == n / (2 * m)
  {
    var q := n / 2 / m;
    assert n / 2 == m * q + n / 2 % m;
    assert q * (2 * m) == 2 * (m * q);
    QuotientIs(n, 2 * m, q);
  }

  lemma {:induction false} NameIsSet(bits: byte, j: nat, k: nat)
    requires j < 8 && k <= 8
    ensures NAMES[j] in SetNames(bits, k) <==> j < k && Has(bits, j)
  {
    hide Has;
    if k > 0 {
      NameIsSet(bits, j, k - 1);
      NamesDiffer(j, k - 1);
    }
  }

  lemma NamesDiffer(i: nat, j: nat)
    requires i < 8 && j < 8
    ensures NAMES[i] == NAMES[j] <==> i == j
  {
    NamesAreClean(i);
    NamesAreClean(j);
  }

  lemma TextSplits(bits: byte)
    ensures bits == 0 ==> SetNames(bits, 8) == []
    ensures bits != 0 ==> Split(FlagText(bits), ',') == SetNames(bits, 8)
  {
    hide Split, Join;
    var names := SetNames(bits, 8);
    SetNamesAreNames(bits, 8);
    forall n | n in names
      ensures ',' !in n
    {
      var k :| 0 <= k < 8 && NAMES[k] == n;
      NamesAreClean(k);
    }
    if names == [] {
      NamesToBits(bits, 8);
      LowIsAll(bits, 8);
      assert Mask(8) == 0x100;
    } else {
      SplitJoin(names, ',');
    }
    if bits == 0 { NoneSet(8); }
  }

  lemma {:induction false} NoneSet(k: nat)
    requires k <= 8
    ensures SetNames(0, k) == []
  {
    if k > 0 {
      NoneSet(k - 1);
      ZeroHasNone(k - 1);
    }
  }

  lemma {:induction false} ZeroHasNone(k: nat)
    ensures !Has(0, k)
  {
    if k > 0 { ZeroHasNone(k - 1); }
  }

  lemma {:induction false} JoinHasNoBar(parts: seq<string>)
    requires forall p :: p in parts ==> '|' !in p && p != ""
    ensures '|' !in Join(parts, ",") && (parts != [] ==> Join(parts, ",") != "")
  {
    if |parts| > 1 { JoinHasNoBar(parts[1..]); }
  }

  /** The flag byte survives being written as text and read back. */
  lemma FlagRoundTrip(bits: byte)
    ensures ParseFlags(Some(FlagText(bits))) == bits
  {
    hide SetNames, TokensToByte, Split, Join, Low, Has;
    var names := SetNames(bits, 8);
    SetNamesAreNames(bits, 8);
    forall n | n in names ensures ',' !in n && '|' !in n && n != "" {
      var k :| 0 <= k < 8 && NAMES[k] == n;
      NamesAreClean(k);
    }
    JoinHasNoBar(names);
    NamesToBits(bits, 8);
    assert Mask(8) == 0x100;
    LowIsAll(bits, 8);
    if names == [] {
      NothingJoined();
      EmptyIsZero();
    } else {
      var text := FlagText(bits);
      assert seq(|text|, i requires 0 <= i < |text| => if text[i] == '|' then ',' else text[i]) == text;
      SplitJoin(names, ',');
    }
  }

  lemma NothingJoined()
    ensures Join([], ",") == ""
  {
  }

  lemma EmptyIsZero()
    ensures TokensToByte([]) == 0
  {
  }
}
