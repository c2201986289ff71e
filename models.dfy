/** app/models.py: the `network` table's rows, the `Network` entity that is
    built from a CIDR or loaded from a row, the two queries over the table
    (`overlaps_with`, `find`) and the small `User` rules. */
module Models {
  import opened Results
  import opened Text
  import opened Arith
  import opened Ipv4
  import opened Utils

  /** A row of the `network` table: the packed network address, the block
      size and the owner, identified by the owner's (unique) email. */
  datatype Row = Row(addressPacked: int, numAddresses: int, owner: string)

  /** A row that some network was stored as: an IPv4 address, a power-of-two
      size of at most 2^32 and an address aligned to that size. */
  predicate RowValid(row: Row) {
    && 0 <= row.addressPacked < AddressSpace
    && row.numAddresses > 0
    && 0 <= GetPrefixLen(MaxPrefixlen, row.numAddresses)
    && row.numAddresses == BlockSize(GetPrefixLen(MaxPrefixlen, row.numAddresses))
    && row.addressPacked % row.numAddresses == 0
  }

  /** The network a valid row stands for. */
  function RowNet(row: Row): (n: Net)
    requires RowValid(row)
    ensures ValidNet(n) && n.address == row.addressPacked && NumAddresses(n) == row.numAddresses
  {
    Net(row.addressPacked, GetPrefixLen(MaxPrefixlen, row.numAddresses))
  }

  /** The row a network is stored as: `(address_packed, num_addresses, owner)`. */
  function RowOf(n: Net, owner: string): Row
    requires ValidNet(n)
  {
    Row(n.address, NumAddresses(n), owner)
  }

  /** Storing a network and reading the row back loses nothing. */
  lemma RowRoundTrip(n: Net, owner: string)
    requires ValidNet(n)
    ensures RowValid(RowOf(n, owner)) && RowNet(RowOf(n, owner)) == n
  {
    PrefixLenRoundTrip(n.prefixlen);
  }

  /** A stored block lies inside the IPv4 space: at most 2^32 addresses,
      ending at or below 2^32. */
  lemma RowBlockInRange(row: Row)
    requires RowValid(row)
    ensures row.numAddresses <= AddressSpace
    ensures row.addressPacked + row.numAddresses <= AddressSpace
  {
    var p := GetPrefixLen(MaxPrefixlen, row.numAddresses);
    BlockSizeBounds(p);
    PowAdd(2, MaxPrefixlen - p, p);
    AddressSpaceIsPow();
    AlignedBlockFits(row.addressPacked, row.numAddresses, Pow(2, p));
  }

  /** What init_on_load rebuilds from a row's two columns:
      `gen_network(ip_address(address_packed).exploded, get_prefix_len(32, num_addresses))`. */
  function LoadedNetwork(row: Row): Result<Net, NetError>
    requires 0 <= row.addressPacked < AddressSpace && row.numAddresses > 0
  {
    GenNetwork(Exploded(row.addressPacked), GetPrefixLen(MaxPrefixlen, row.numAddresses))
  }

  lemma LoadValidRow(row: Row)
    requires RowValid(row)
    ensures LoadedNetwork(row) == Success(RowNet(row))
  {
    AddressRoundTrip(row.addressPacked);
    GenNetworkStrict(Exploded(row.addressPacked), GetPrefixLen(MaxPrefixlen, row.numAddresses));
  }

  /** init_on_load on the row the constructor produced recovers the network:
      the same address and the same prefix length. */
  lemma LoadRoundTrip(n: Net, owner: string)
    requires ValidNet(n)
    ensures LoadedNetwork(RowOf(n, owner)) == Success(n)
  {
    RowRoundTrip(n, owner);
    LoadValidRow(RowOf(n, owner));
  }

  /** A reserved IPv4 block: the parsed network and its two stored columns. */
  class Network {
    var network: Net
    var addressPacked: int
    var numAddresses: int
    var owner: string

    /** The stored columns agree with the network. */
    ghost predicate Valid()
      reads this
    {
      ValidNet(network) && addressPacked == network.address && numAddresses == NumAddresses(network)
    }

    /** `Network(address, prefixlen, owner)`: gen_network, then the two columns. */
    constructor (address: string, prefixlen: int, owner: string)
      requires GenNetwork(address, prefixlen).Success?
      ensures Valid()
      ensures network == GenNetwork(address, prefixlen).value
      ensures ParseAddress(address) == Some(addressPacked) && network.prefixlen == prefixlen
      ensures numAddresses == BlockSize(network.prefixlen)
      ensures this.owner == owner
    {
      GenNetworkStrict(address, prefixlen);
      var net := GenNetwork(address, prefixlen).value;
      network := net;
      addressPacked := net.address;
      numAddresses := NumAddresses(net);
      this.owner := owner;
    }

    /** Loading a row: the columns are set from the row, then init_on_load
        rebuilds the network from them. */
    constructor Load(row: Row)
      requires 0 <= row.addressPacked < AddressSpace && row.numAddresses > 0
      requires LoadedNetwork(row).Success?
      ensures network == LoadedNetwork(row).value
      ensures addressPacked == row.addressPacked && numAddresses == row.numAddresses && owner == row.owner
      ensures RowValid(row) ==> Valid() && network == RowNet(row)
    {
      addressPacked := row.addressPacked;
      numAddresses := row.numAddresses;
      owner := row.owner;
      var addr := Exploded(row.addressPacked);
      var prefixlen := GetPrefixLen(MaxPrefixlen, row.numAddresses);
      network := GenNetwork(addr, prefixlen).value;
      if RowValid(row) {
        LoadValidRow(row);
      }
    }

    /** The row this object is committed as. */
    function StoredRow(): Row
      reads this
    {
      Row(addressPacked, numAddresses, owner)
    }

    /** cidr: the exploded `a.b.c.d/p` text, which parses back to the network. */
    function Cidr(): (r: string)
      reads this
      requires Valid()
      ensures IpNetwork(r) == Success(network)
    {
      CidrRoundTrip(network);
      CidrText(network)
    }

    /** The network_address getter: the exploded address, which parses back
        to the stored packed address. */
    function NetworkAddress(): (r: string)
      reads this
      requires Valid()
      ensures ParseAddress(r) == Some(addressPacked)
    {
      AddressRoundTrip(network.address);
      Exploded(network.address)
    }

    /** The prefixlen getter: the prefix length whose block size is the stored size. */
    function Prefixlen(): (r: nat)
      reads this
      requires Valid()
      ensures r <= MaxPrefixlen && BlockSize(r) == numAddresses
      ensures r == GetPrefixLen(MaxPrefixlen, numAddresses)
    {
      PrefixLenRoundTrip(network.prefixlen);
      network.prefixlen
    }

    /** The network_address setter: `gen_network(address, self.prefixlen)`,
        then the packed address.  It raises (and changes nothing) unless the
        new address is aligned to the current prefix. */
    method SetNetworkAddress(address: string) returns (error: Option<NetError>)
      requires Valid()
      modifies this
      ensures Valid()
      ensures owner == old(owner) && numAddresses == old(numAddresses)
      ensures network.prefixlen == old(network.prefixlen)
      ensures var g := GenNetwork(address, old(network.prefixlen));
        error == (if g.Success? then None else Some(g.error))
      ensures error.None? <==>
        ParseAddress(address).Some? && ParseAddress(address).value % old(numAddresses) == 0
      ensures error.None? ==> Some(addressPacked) == ParseAddress(address)
      ensures error.None? ==> network == GenNetwork(address, old(network.prefixlen)).value
      ensures error.Some? ==> network == old(network) && addressPacked == old(addressPacked)
    {
      var prefixlen := Prefixlen();
      GenNetworkStrict(address, prefixlen);
      var g := GenNetwork(address, prefixlen);
      if g.Failure? {
        return Some(g.error);
      }
      network := g.value;
      addressPacked := network.address;
      error := None;
    }

    /** The prefixlen setter: `gen_network(self.network_address, prefixlen)`,
        then the block size.  It raises (and changes nothing) unless the
        prefix length is in 0..32 and the current address has no host bits
        under it. */
    method SetPrefixlen(prefixlen: int) returns (error: Option<NetError>)
      requires Valid()
      modifies this
      ensures Valid()
      ensures owner == old(owner) && addressPacked == old(addressPacked)
      ensures network.address == old(network.address)
      ensures var g := GenNetwork(Exploded(old(network.address)), prefixlen);
        error == (if g.Success? then None else Some(g.error))
      ensures error.None? <==>
        0 <= prefixlen <= MaxPrefixlen && old(addressPacked) % BlockSize(prefixlen) == 0
      ensures error.None? ==> network.prefixlen == prefixlen && numAddresses == BlockSize(prefixlen)
      ensures error.None? ==> network == GenNetwork(Exploded(old(network.address)), prefixlen).value
      ensures error.Some? ==> network == old(network) && numAddresses == old(numAddresses)
    {
      var address := NetworkAddress();
      GenNetworkStrict(address, prefixlen);
      var g := GenNetwork(address, prefixlen);
      if g.Failure? {
        return Some(g.error);
      }
      network := g.value;
      numAddresses := NumAddresses(network);
      error := None;
    }
  }

  /** The filter of overlaps_with: the stored block starts at or before the
      requested one and ends at or after it. */
  predicate Contains(row: Row, n: Net)
    requires n.prefixlen <= MaxPrefixlen
  {
    row.addressPacked <= n.address && n.address + NumAddresses(n) <= row.addressPacked + row.numAddresses
  }

  /** The filter of find: the same packed address and the same size. */
  predicate SameBlock(row: Row, n: Net)
    requires n.prefixlen <= MaxPrefixlen
  {
    row.addressPacked == n.address && row.numAddresses == NumAddresses(n)
  }

  /** The two filters the core runs over the table. */
  datatype Query =
    | Containing(net: Net)   // overlaps_with: the stored block contains `net`
    | SameAs(net: Net)       // find: the stored block is `net`

  predicate Selects(q: Query, row: Row)
    requires q.net.prefixlen <= MaxPrefixlen
  {
    match q
    case Containing(n) => Contains(row, n)
    case SameAs(n) => SameBlock(row, n)
  }

  /** The rows of a table that a query selects, in table order. */
  function Filter(table: seq<Row>, q: Query): (r: seq<Row>)
    requires q.net.prefixlen <= MaxPrefixlen
    ensures |r| <= |table|
    ensures forall row :: row in r <==> row in table && Selects(q, row)
  {
    if |table| == 0 then []
    else (if Selects(q, table[0]) then [table[0]] else []) + Filter(table[1..], q)
  }

  /** Filtering a table with one row appended. */
  lemma {:induction false} FilterAppend(table: seq<Row>, row: Row, q: Query)
    requires q.net.prefixlen <= MaxPrefixlen
    ensures Filter(table + [row], q) == Filter(table, q) + (if Selects(q, row) then [row] else [])
  {
    if |table| > 0 {
      assert (table + [row])[1..] == table[1..] + [row];
      FilterAppend(table[1..], row, q);
    }
  }

  /** overlaps_with: the stored networks that contain the requested block;
      gen_network's ValueError on a bad request. */
  function OverlapsWith(table: seq<Row>, address: string, prefixlen: int): (r: Result<seq<Row>, NetError>)
    ensures GenNetwork(address, prefixlen).Failure? ==> r == Failure(GenNetwork(address, prefixlen).error)
    ensures GenNetwork(address, prefixlen).Success? ==>
      r == Success(Filter(table, Containing(GenNetwork(address, prefixlen).value)))
    ensures GenNetwork(address, prefixlen).Success? ==>
      forall row :: row in r.value <==> row in table && Contains(row, GenNetwork(address, prefixlen).value)
  {
    var net :- GenNetwork(address, prefixlen);
    Success(Filter(table, Containing(net)))
  }

  /** find: the stored networks with exactly the requested address and size. */
  function Find(table: seq<Row>, address: string, prefixlen: int): (r: Result<seq<Row>, NetError>)
    ensures GenNetwork(address, prefixlen).Failure? ==> r == Failure(GenNetwork(address, prefixlen).error)
    ensures GenNetwork(address, prefixlen).Success? ==>
      r == Success(Filter(table, SameAs(GenNetwork(address, prefixlen).value)))
    ensures GenNetwork(address, prefixlen).Success? ==>
      forall row :: row in r.value <==> row in table && SameBlock(row, GenNetwork(address, prefixlen).value)
  {
    var net :- GenNetwork(address, prefixlen);
    Success(Filter(table, SameAs(net)))
  }

  /** An address inside a network's block. */
  predicate InBlock(x: int, n: Net)
    requires n.prefixlen <= MaxPrefixlen
  {
    n.address <= x < n.address + NumAddresses(n)
  }

  /** The containment test is exactly "every address of the request lies in
      the stored block". */
  lemma ContainsIsSuperset(row: Row, n: Net)
    requires RowValid(row) && ValidNet(n)
    ensures Contains(row, n) <==> forall x :: InBlock(x, n) ==> InBlock(x, RowNet(row))
  {
    if forall x :: InBlock(x, n) ==> InBlock(x, RowNet(row)) {
      assert InBlock(n.address, n);
      assert InBlock(n.address + NumAddresses(n) - 1, n);
    }
  }

  /** Two blocks share an address: the general overlap test, which
      overlaps_with does not perform. */
  predicate Intersects(a: Net, b: Net)
    requires a.prefixlen <= MaxPrefixlen && b.prefixlen <= MaxPrefixlen
  {
    a.address < b.address + NumAddresses(b) && b.address < a.address + NumAddresses(a)
  }

  /** A stored block that contains the request also shares an address with it. */
  lemma ContainsImpliesIntersects(row: Row, n: Net)
    requires RowValid(row) && ValidNet(n) && Contains(row, n)
    ensures Intersects(RowNet(row), n)
  {
  }

  /** A request strictly larger than a stored block is never reported for
      it, even when the two share addresses. */
  lemma LargerRequestNotReported(row: Row, n: Net)
    requires RowValid(row) && ValidNet(n) && NumAddresses(n) > row.numAddresses
    ensures !Contains(row, n)
  {
  }

  /** find selects exactly the rows that load as the requested network. */
  lemma FindSelectsSameNetwork(table: seq<Row>, address: string, prefixlen: int, row: Row)
    requires forall r :: r in table ==> RowValid(r)
    requires GenNetwork(address, prefixlen).Success?
    ensures row in Find(table, address, prefixlen).value <==>
      row in table && RowNet(row) == GenNetwork(address, prefixlen).value
  {
    var net := GenNetwork(address, prefixlen).value;
    if row in table {
      PrefixLenRoundTrip(net.prefixlen);
    }
  }

  const MinPasswordLength: nat := 6

  /** What gen_random_hash(length) yields: ASCII letters and digits. */
  predicate IsRandomHash(s: string, length: nat) {
    |s| == length && forall i :: 0 <= i < |s| ==> IsDigit(s[i]) || 'a' <= s[i] <= 'z' || 'A' <= s[i] <= 'Z'
  }

  /** `repr(user)`: `<User email>`. */
  function UserRepr(email: string): string {
    "<User " + email + ">"
  }

  /** A registered user: the rules the core needs of it. */
  class User {
    var email: string
    var passwordHash: string
    var token: string
    var verified: bool

    /** The password setter.  A password shorter than six characters raises
        PasswordTooShortError and changes nothing; otherwise the salted hash
        is stored and a fresh 32-character token is drawn.  The hash and the
        random token come from outside the model. */
    method SetPassword(password: string, salt: string, hashPassword: (string, string) -> string, randomToken: string)
      returns (ok: bool)
      requires IsRandomHash(randomToken, 32)
      modifies this
      ensures email == old(email) && verified == old(verified)
      ensures ok <==> |password| >= MinPasswordLength
      ensures ok ==> passwordHash == hashPassword(salt, password) && token == randomToken
      ensures !ok ==> passwordHash == old(passwordHash) && token == old(token)
    {
      if |password| < MinPasswordLength {
        return false;
      }
      passwordHash := hashPassword(salt, password);
      token := randomToken;
      ok := true;
    }

    /** verify_namespace: the purpose a signed token is issued for. */
    function VerifyNamespace(): (r: string)
      reads this
      ensures r == "lost_password" <==> verified
      ensures r == "registration" <==> !verified
    {
      if verified then "lost_password" else "registration"
    }

    /** name: the part of the email before its first '@'; `index` raises
        when there is none. */
    function Name(): (r: Option<string>)
      reads this
      ensures r.Some? <==> '@' in email
      ensures r.Some? ==> r.value + "@" <= email && '@' !in r.value
    {
      match IndexOf(email, '@')
      case None => None
      case Some(i) => Some(email[..i])
    }
  }
}
