/** app/utils.py: recovering a prefix length from a block size, and the
    strict network constructor every other part of the core goes through. */
module Utils {
  import opened Results
  import opened Text
  import opened Arith
  import opened Ipv4

  /** How many times `factor` divides `num`: the value `get_factors_by` computes. */
  function FactorsBy(factor: nat, num: nat): nat
    requires factor >= 2 && num > 0
    decreases num
  {
    if num % factor == 0 then 1 + FactorsBy(factor, num / factor) else 0
  }

  lemma MulAssoc(a: int, b: int, c: int)
    ensures a * (b * c) == (a * b) * c
  {
  }

  /** `num` is `factor^k` times a part that `factor` does not divide. */
  lemma {:induction false} FactorsByDivides(factor: nat, num: nat) returns (rest: nat)
    requires factor >= 2 && num > 0
    ensures num == Pow(factor, FactorsBy(factor, num)) * rest
    ensures rest % factor != 0
    decreases num
  {
    if num % factor == 0 {
      var q := num / factor;
      DivExact(num, factor);
      rest := FactorsByDivides(factor, q);
      var k := FactorsBy(factor, q);
      assert num == factor * q;
      assert FactorsBy(factor, num) == k + 1;
      assert Pow(factor, k + 1) == factor * Pow(factor, k);
      MulAssoc(factor, Pow(factor, k), rest);
    } else {
      rest := num;
    }
  }

  /** Counting the factors of `factor^k * rest` gives back `k`. */
  lemma {:induction false} FactorsByOfMultiple(factor: nat, k: nat, rest: nat)
    requires factor >= 2 && rest > 0 && rest % factor != 0
    ensures Pow(factor, k) * rest > 0
    ensures FactorsBy(factor, Pow(factor, k) * rest) == k
  {
    if k > 0 {
      var smaller := Pow(factor, k - 1) * rest;
      FactorsByOfMultiple(factor, k - 1, rest);
      var num := Pow(factor, k) * rest;
      assert num == factor * smaller by {
        assert Pow(factor, k) == factor * Pow(factor, k - 1);
        MulAssoc(factor, Pow(factor, k - 1), rest);
      }
      MulDiv(factor, smaller);
      assert num % factor == 0 && num / factor == smaller;
      assert FactorsBy(factor, num) == 1 + FactorsBy(factor, smaller);
    }
  }

  /** get_factors_by: divide out `factor` while it divides `num`, counting. */
  method GetFactorsBy(factor: nat, num: nat) returns (amountNumFactors: nat)
    requires factor >= 2 && num > 0
    ensures amountNumFactors == FactorsBy(factor, num)
    ensures num % Pow(factor, amountNumFactors) == 0
    ensures num / Pow(factor, amountNumFactors) % factor != 0
  {
    amountNumFactors := 0;
    var n := num;
    while n % factor == 0
      invariant n > 0
      invariant amountNumFactors + FactorsBy(factor, n) == FactorsBy(factor, num)
      decreases n
    {
      DivExact(n, factor);
      n := n / factor;
      amountNumFactors := amountNumFactors + 1;
    }
    var rest := FactorsByDivides(factor, num);
    MulDiv(Pow(factor, amountNumFactors), rest);
  }

  /** get_prefix_len: the prefix length of a block of `numAddresses` addresses. */
  function GetPrefixLen(maxPrefixlen: int, numAddresses: nat): (r: int)
    requires numAddresses > 0
    ensures r <= maxPrefixlen
    ensures r == maxPrefixlen <==> numAddresses % 2 == 1
  {
    maxPrefixlen - FactorsBy(2, numAddresses)
  }

  /** The block size of a prefix length gives the prefix length back. */
  lemma PrefixLenRoundTrip(prefixlen: nat)
    requires prefixlen <= MaxPrefixlen
    ensures GetPrefixLen(MaxPrefixlen, BlockSize(prefixlen)) == prefixlen
  {
    FactorsByOfMultiple(2, MaxPrefixlen - prefixlen, 1);
  }

  /** gen_network: `ip_network(u'{}/{}'.format(address, prefixlen))`. */
  function GenNetwork(address: string, prefixlen: int): Result<Net, NetError> {
    IpNetwork(address + "/" + IntToDecimal(prefixlen))
  }

  /** gen_network fails on a malformed address, on a prefix length outside
      0..32 and on an address with host bits set; otherwise it is the block
      of `2^(32 - prefixlen)` addresses starting at the address. */
  lemma GenNetworkStrict(address: string, prefixlen: int)
    ensures ParseAddress(address).None? ==> GenNetwork(address, prefixlen) == Failure(BadAddress)
    ensures ParseAddress(address).Some? && !(0 <= prefixlen <= MaxPrefixlen) ==>
      GenNetwork(address, prefixlen) == Failure(BadPrefix)
    ensures ParseAddress(address).Some? && 0 <= prefixlen <= MaxPrefixlen ==>
      var a := ParseAddress(address).value;
      GenNetwork(address, prefixlen) ==
        if a % BlockSize(prefixlen) == 0 then Success(Net(a, prefixlen)) else Failure(HostBitsSet)
  {
    var d := IntToDecimal(prefixlen);
    assert '/' !in d by {
      if prefixlen < 0 {
        DigitsHaveNoSeparator(NatToDecimal(-prefixlen), '/');
      } else {
        DigitsHaveNoSeparator(d, '/');
      }
    }
    SplitWithoutSeparator(d, '/');
    SplitAppend(address, '/', d);
    if '/' in address {
      SplitWithSeparator(address, '/');
      if ParseAddress(address).Some? {
        ParsedAddressChars(address, '/');
      }
    } else {
      SplitWithoutSeparator(address, '/');
      assert Split(address + "/" + d, '/') == [address, d];
      if prefixlen >= 0 {
        DecimalRoundTrip(prefixlen);
      } else {
        assert !IsDigit(d[0]);
      }
    }
  }

  /** get_max_prefixlen: the maximal prefix length of the address's family,
      32 for every IPv4 address; `ip_address` raises on anything else. */
  function GetMaxPrefixlen(address: string): (r: Result<nat, NetError>)
    ensures r.Success? <==> ParseAddress(address).Some?
    ensures r.Success? ==> r.value == MaxPrefixlen
  {
    match ParseAddress(address)
    case Some(_) => Success(MaxPrefixlen)
    case None => Failure(BadAddress)
  }
}
