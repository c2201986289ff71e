/** app/api.py, `NetworkAPI`: creating, updating and deleting reservations in
    the `network` table, without the HTTP layer.  The table is a sequence of
    rows; a handler that aborts or raises leaves it as it was, since nothing
    is committed. */
module Api {
  import opened Results
  import opened Text
  import opened Arith
  import opened Ipv4
  import opened Utils
  import opened Models

  /** How a request is refused. */
  datatype ApiError =
    | NoFreeBlockSearch          // post without an address calls Network.next_unused_network, which is not defined
    | Unhandled(error: NetError) // a ValueError that no handler catches (HTTP 500)
    | Invalid(error: NetError)   // the ValueError caught around overlaps_with (HTTP 400)
    | Conflict(message: string)  // an existing network contains the request (HTTP 400)
    | NotFound                   // first_or_404 found no network (HTTP 404)
    | Unauthorized               // abort(401): the caller does not own the network

  datatype Response = Done | Created(network: Net) | Rejected(error: ApiError)

  const ConflictPrefix: string := "ip address conflict: "

  /** `n.cidr` of a loaded row. */
  function RowCidr(row: Row): string
    requires RowValid(row)
  {
    CidrText(RowNet(row))
  }

  function Cidrs(rows: seq<Row>): (r: seq<string>)
    requires forall row :: row in rows ==> RowValid(row)
    ensures |r| == |rows| && forall i :: 0 <= i < |rows| ==> r[i] == RowCidr(rows[i])
  {
    if |rows| == 0 then [] else [RowCidr(rows[0])] + Cidrs(rows[1..])
  }

  /** `'ip address conflict: {}'.format(','.join(map(lambda n: n.cidr, qry.all())))`. */
  function ConflictMessage(conflicts: seq<Row>): string
    requires forall row :: row in conflicts ==> RowValid(row)
  {
    ConflictPrefix + Join(Cidrs(conflicts), ',')
  }

  lemma CidrTextHasNoComma(n: Net)
    requires n.address < AddressSpace
    ensures ',' !in CidrText(n)
  {
    var o := Octets(n.address);
    DigitsHaveNoSeparator(NatToDecimal(o[0]), ',');
    DigitsHaveNoSeparator(NatToDecimal(o[1]), ',');
    DigitsHaveNoSeparator(NatToDecimal(o[2]), ',');
    DigitsHaveNoSeparator(NatToDecimal(o[3]), ',');
    DigitsHaveNoSeparator(NatToDecimal(n.prefixlen), ',');
  }

  /** The conflict message names every conflicting network, in query order:
      after the fixed prefix, splitting at ',' gives one CIDR per conflict,
      and each reads back as that conflict's network. */
  lemma ConflictMessageLists(conflicts: seq<Row>)
    requires |conflicts| >= 1
    requires forall row :: row in conflicts ==> RowValid(row)
    ensures ConflictMessage(conflicts)[..|ConflictPrefix|] == ConflictPrefix
    ensures var listed := Split(ConflictMessage(conflicts)[|ConflictPrefix|..], ',');
      |listed| == |conflicts| &&
      forall i :: 0 <= i < |conflicts| ==> IpNetwork(listed[i]) == Success(RowNet(conflicts[i]))
  {
    var cidrs := Cidrs(conflicts);
    forall i | 0 <= i < |cidrs|
      ensures ',' !in cidrs[i] && IpNetwork(cidrs[i]) == Success(RowNet(conflicts[i]))
    {
      CidrTextHasNoComma(RowNet(conflicts[i]));
      CidrRoundTrip(RowNet(conflicts[i]));
    }
    SplitJoin(cidrs, ',');
    assert ConflictMessage(conflicts)[|ConflictPrefix|..] == Join(cidrs, ',');
  }

  /** The prefix length post works with: the given one, or the address's
      maximal prefix length, 32 for IPv4. */
  function RequestedPrefixlen(prefixlen: Option<int>): int {
    if prefixlen.Some? then prefixlen.value else MaxPrefixlen
  }

  /** Everything post does before it constructs the network: the address is
      required (without one it would call the undefined
      next_unused_network); `get_max_prefixlen(address)` is evaluated as the
      default of `request.form.get` even when a prefix length is given, and
      raises outside the try block on a bad address; overlaps_with raises on
      a bad network and the handler reports that; any containing network is
      a conflict.  On success: the address and prefix length to construct. */
  function ValidatePost(table: seq<Row>, address: Option<string>, prefixlen: Option<int>): (r: Result<(string, int), ApiError>)
    requires forall row :: row in table ==> RowValid(row)
    ensures r.Success? ==> GenNetwork(r.value.0, r.value.1).Success?
  {
    if address.None? then Failure(NoFreeBlockSearch)
    else
      var maxPrefixlen := GetMaxPrefixlen(address.value);
      if maxPrefixlen.Failure? then Failure(Unhandled(maxPrefixlen.error))
      else
        var p := if prefixlen.Some? then prefixlen.value else maxPrefixlen.value;
        match OverlapsWith(table, address.value, p)
        case Failure(e) => Failure(Invalid(e))
        case Success(conflicts) =>
          if |conflicts| > 0 then Failure(Conflict(ConflictMessage(conflicts)))
          else Success((address.value, p))
  }

  /** post accepts a request exactly when an address is given that parses,
      the prefix length (32 by default) is in 0..32, the address has no host
      bits under it, and no stored network contains the block. */
  lemma PostAcceptance(table: seq<Row>, address: Option<string>, prefixlen: Option<int>)
    requires forall row :: row in table ==> RowValid(row)
    ensures var r := ValidatePost(table, address, prefixlen);
      var p := RequestedPrefixlen(prefixlen);
      r.Success? <==>
        && address.Some?
        && ParseAddress(address.value).Some?
        && 0 <= p <= MaxPrefixlen
        && ParseAddress(address.value).value % BlockSize(p) == 0
        && forall row :: row in table ==> !Contains(row, Net(ParseAddress(address.value).value, p))
    ensures var r := ValidatePost(table, address, prefixlen);
      r.Success? ==> r.value == (address.value, RequestedPrefixlen(prefixlen))
  {
    if address.Some? {
      GenNetworkStrict(address.value, RequestedPrefixlen(prefixlen));
      var conflicts := OverlapsWith(table, address.value, RequestedPrefixlen(prefixlen));
      if conflicts.Success? && |conflicts.value| > 0 {
        assert conflicts.value[0] in conflicts.value;
      }
    }
  }

  /** A request contained in a stored network is refused with the conflict
      message listing the containing networks. */
  lemma PostConflict(table: seq<Row>, address: string, prefixlen: Option<int>, row: Row)
    requires forall r :: r in table ==> RowValid(r)
    requires GenNetwork(address, RequestedPrefixlen(prefixlen)).Success?
    requires row in table && Contains(row, GenNetwork(address, RequestedPrefixlen(prefixlen)).value)
    ensures var conflicts := OverlapsWith(table, address, RequestedPrefixlen(prefixlen)).value;
      row in conflicts && ValidatePost(table, Some(address), prefixlen) == Failure(Conflict(ConflictMessage(conflicts)))
  {
    GenNetworkStrict(address, RequestedPrefixlen(prefixlen));
  }

  lemma {:induction false} FilterNone(table: seq<Row>, q: Query)
    requires q.net.prefixlen <= MaxPrefixlen
    requires forall row :: row in table ==> !Selects(q, row)
    ensures Filter(table, q) == []
  {
    if |table| > 0 {
      assert table[0] in table;
      FilterNone(table[1..], q);
    }
  }

  /** A row appended to a table where nothing matched is the only match. */
  lemma FindAppended(table: seq<Row>, address: string, prefixlen: int, n: Net, row: Row)
    requires GenNetwork(address, prefixlen) == Success(n)
    requires forall r :: r in table ==> !SameBlock(r, n)
    requires SameBlock(row, n)
    ensures Find(table + [row], address, prefixlen) == Success([row])
  {
    FilterNone(table, SameAs(n));
    FilterAppend(table, row, SameAs(n));
    assert Selects(SameAs(n), row);
    assert Filter(table + [row], SameAs(n)) == [] + [row] == [row];
  }

  /** After a successful post, find on the same address and prefix length
      returns exactly the new network, with that address and prefix length. */
  lemma PostThenFind(table: seq<Row>, user: string, address: string, prefixlen: Option<int>)
    requires forall row :: row in table ==> RowValid(row)
    requires ValidatePost(table, Some(address), prefixlen).Success?
    ensures var p := RequestedPrefixlen(prefixlen);
      var n := GenNetwork(address, p).value;
      && Find(table + [RowOf(n, user)], address, p) == Success([RowOf(n, user)])
      && Some(n.address) == ParseAddress(address)
      && n.prefixlen == p
  {
    var p := RequestedPrefixlen(prefixlen);
    PostAcceptance(table, Some(address), prefixlen);
    GenNetworkStrict(address, p);
    var n := GenNetwork(address, p).value;
    RowRoundTrip(n, user);
    forall row | row in table
      ensures !SameBlock(row, n)
    {
      assert !Contains(row, n);
    }
    FindAppended(table, address, p, n, RowOf(n, user));
  }

  /** Network.get(address, prefixlen).first_or_404(), with get taken as find:
      the position of the first stored row that find selects. */
  function Get(table: seq<Row>, address: string, prefixlen: int): (r: Result<nat, ApiError>)
    ensures GenNetwork(address, prefixlen).Failure? ==> r == Failure(Unhandled(GenNetwork(address, prefixlen).error))
    ensures r.Success? ==> GenNetwork(address, prefixlen).Success? && r.value < |table|
    ensures r.Success? ==> var n := GenNetwork(address, prefixlen).value;
      SameBlock(table[r.value], n) && forall j :: 0 <= j < r.value ==> !SameBlock(table[j], n)
    ensures r == Failure(NotFound) <==>
      (GenNetwork(address, prefixlen).Success? &&
       forall row :: row in table ==> !SameBlock(row, GenNetwork(address, prefixlen).value))
  {
    match GenNetwork(address, prefixlen)
    case Failure(e) => Failure(Unhandled(e))
    case Success(n) =>
      match FirstSameBlock(table, n)
      case None => Failure(NotFound)
      case Some(i) => Success(i)
  }

  function FirstSameBlock(table: seq<Row>, n: Net): (r: Option<nat>)
    requires n.prefixlen <= MaxPrefixlen
    ensures r.None? <==> forall row :: row in table ==> !SameBlock(row, n)
    ensures r.Some? ==> r.value < |table| && SameBlock(table[r.value], n)
    ensures r.Some? ==> forall j :: 0 <= j < r.value ==> !SameBlock(table[j], n)
  {
    if |table| == 0 then None
    else if SameBlock(table[0], n) then Some(0)
    else match FirstSameBlock(table[1..], n)
      case None => None
      case Some(i) => Some(i + 1)
  }

  /** What put does to a loaded network: the address setter first (checked
      against the current prefix length), then the prefix-length setter
      (checked against the new address). */
  function Update(n: Net, newAddress: Option<string>, newPrefixlen: Option<int>): (r: Result<Net, NetError>)
    requires ValidNet(n)
    ensures r.Success? ==> ValidNet(r.value)
    ensures newAddress.None? && newPrefixlen.None? ==> r == Success(n)
  {
    var afterAddress :- if newAddress.Some? then GenNetwork(newAddress.value, n.prefixlen) else Success(n);
    if newPrefixlen.Some? then GenNetwork(Exploded(afterAddress.address), newPrefixlen.value)
    else Success(afterAddress)
  }

  /** With both fields given, put succeeds exactly when the new address is
      aligned to the OLD prefix length and to the new one. */
  lemma UpdateBoth(n: Net, address: string, prefixlen: int)
    requires ValidNet(n)
    ensures Update(n, Some(address), Some(prefixlen)).Success? <==>
      && ParseAddress(address).Some?
      && ParseAddress(address).value % NumAddresses(n) == 0
      && 0 <= prefixlen <= MaxPrefixlen
      && ParseAddress(address).value % BlockSize(prefixlen) == 0
    ensures Update(n, Some(address), Some(prefixlen)).Success? ==>
      Update(n, Some(address), Some(prefixlen)).value == Net(ParseAddress(address).value, prefixlen)
  {
    GenNetworkStrict(address, n.prefixlen);
    var first := GenNetwork(address, n.prefixlen);
    if first.Success? {
      AddressRoundTrip(first.value.address);
      GenNetworkStrict(Exploded(first.value.address), prefixlen);
    }
  }

  /** With only an address given, put succeeds exactly when the address
      parses and is aligned to the current block size, and then moves the
      network there with its prefix length unchanged. */
  lemma UpdateAddressOnly(n: Net, address: string)
    requires ValidNet(n)
    ensures Update(n, Some(address), None).Success? <==>
      ParseAddress(address).Some? && ParseAddress(address).value % NumAddresses(n) == 0
    ensures Update(n, Some(address), None).Success? ==>
      Update(n, Some(address), None).value == Net(ParseAddress(address).value, n.prefixlen)
  {
    GenNetworkStrict(address, n.prefixlen);
  }

  /** With only a prefix length given, put succeeds exactly when it lies in
      0..32 and the current address has no host bits under it, and then
      keeps the address. */
  lemma UpdatePrefixOnly(n: Net, prefixlen: int)
    requires ValidNet(n)
    ensures Update(n, None, Some(prefixlen)).Success? <==>
      0 <= prefixlen <= MaxPrefixlen && n.address % BlockSize(prefixlen) == 0
    ensures Update(n, None, Some(prefixlen)).Success? ==>
      Update(n, None, Some(prefixlen)).value == Net(n.address, prefixlen)
  {
    AddressRoundTrip(n.address);
    GenNetworkStrict(Exploded(n.address), prefixlen);
  }

  /** Because the address is checked against the old prefix length, put can
      refuse a target that is itself a valid network: moving a /24 to the
      upper half of a block as a /25. */
  lemma UpdateOrderMatters(n: Net, address: string, a: nat)
    requires ValidNet(n) && n.prefixlen == 24
    requires ParseAddress(address) == Some(a) && a % 256 == 128
    ensures GenNetwork(address, 25) == Success(Net(a, 25))
    ensures Update(n, Some(address), Some(25)).Failure?
  {
    assert BlockSize(24) == Pow(2, 8) == 256;
    assert BlockSize(25) == Pow(2, 7) == 128;
    var k := a / 256;
    assert a == 128 * (2 * k + 1);
    assert a % 128 == 0 && a % 256 != 0;
    UpdateBoth(n, address, 25);
    GenNetworkStrict(address, 25);
  }

  /** put does not look at the other reservations: it moves a network onto
      another stored network of the same size, after which each of the two
      rows contains the other. */
  lemma UpdateIgnoresOtherNetworks(target: Row, moving: Row)
    requires RowValid(target) && RowValid(moving)
    requires target.numAddresses == moving.numAddresses
    ensures var moved := Update(RowNet(moving), Some(Exploded(target.addressPacked)), None);
      && moved == Success(RowNet(target))
      && var after := RowOf(moved.value, moving.owner);
        Contains(target, RowNet(after)) && Contains(after, RowNet(target))
  {
    var nt, nm := RowNet(target), RowNet(moving);
    PrefixLenRoundTrip(nt.prefixlen);
    AddressRoundTrip(target.addressPacked);
    GenNetworkStrict(Exploded(target.addressPacked), nm.prefixlen);
    RowRoundTrip(nt, moving.owner);
  }

  /** The body of put between loading and committing: the address setter,
      then the prefix-length setter, stopping at the first that raises. */
  method ApplyChanges(network: Network, newAddress: Option<string>, newPrefixlen: Option<int>)
    returns (error: Option<NetError>)
    requires network.Valid()
    modifies network
    ensures network.Valid() && network.owner == old(network.owner)
    ensures var u := Update(old(network.network), newAddress, newPrefixlen);
      && (u.Failure? ==> error == Some(u.error))
      && (u.Success? ==> error.None? && network.network == u.value)
  {
    ghost var loaded := network.network;
    if newAddress.Some? {
      error := network.SetNetworkAddress(newAddress.value);
      if error.Some? {
        return;
      }
    }
    assert Update(loaded, newAddress, None) == Success(network.network);
    if newPrefixlen.Some? {
      error := network.SetPrefixlen(newPrefixlen.value);
      if error.Some? {
        return;
      }
    }
    error := None;
  }

  /** The reservation store behind NetworkAPI: the `network` table. */
  class NetworkApi {
    var networks: seq<Row>

    /** Every stored row is one that a network was committed as. */
    ghost predicate Valid()
      reads this
    {
      forall row :: row in networks ==> RowValid(row)
    }

    constructor (networks: seq<Row>)
      requires forall row :: row in networks ==> RowValid(row)
      ensures Valid() && this.networks == networks
    {
      this.networks := networks;
    }

    /** post, with the constructor called as declared:
        `Network(address, prefixlen, g.user)`. */
    method Post(user: string, address: Option<string>, prefixlen: Option<int>) returns (r: Response)
      requires Valid()
      modifies this
      ensures Valid()
      ensures var v := ValidatePost(old(networks), address, prefixlen);
        v.Failure? ==> r == Rejected(v.error) && networks == old(networks)
      ensures var v := ValidatePost(old(networks), address, prefixlen);
        v.Success? ==>
          var n := GenNetwork(v.value.0, v.value.1).value;
          r == Created(n) && networks == old(networks) + [RowOf(n, user)]
    {
      var v := ValidatePost(networks, address, prefixlen);
      if v.Failure? {
        return Rejected(v.error);
      }
      var (a, p) := v.value;
      var network := new Network(a, p, user);
      RowRoundTrip(network.network, user);
      networks := networks + [network.StoredRow()];
      r := Created(network.network);
    }

    /** post as written: `Network(g.user, address, prefixlen)` hands the user
        to gen_network as the address and the address as the prefix length,
        so `ip_network` receives `repr(user) + '/' + address`, raises a
        ValueError that the `except AssertionError` does not catch, and
        nothing is stored. */
    method PostAsWritten(user: string, address: Option<string>, prefixlen: Option<int>) returns (r: Response)
      requires Valid()
      modifies this
      ensures networks == old(networks)
      ensures var v := ValidatePost(old(networks), address, prefixlen);
        v.Failure? ==> r == Rejected(v.error)
      ensures ValidatePost(old(networks), address, prefixlen).Success? ==> r == Rejected(Unhandled(BadAddress))
    {
      var v := ValidatePost(networks, address, prefixlen);
      if v.Failure? {
        return Rejected(v.error);
      }
      var (a, p) := v.value;
      var attempt := IpNetwork(UserRepr(user) + "/" + a);
      SwappedArgumentsFail(user, a);
      r := Rejected(Unhandled(attempt.error));
    }

    /** put: fetch the network, apply the address setter, then the
        prefix-length setter, and commit; there is no ownership check and
        no conflict check.  A setter that raises leaves the table as it was. */
    method Put(address: string, prefixlen: int, newAddress: Option<string>, newPrefixlen: Option<int>) returns (r: Response)
      requires Valid()
      modifies this
      ensures Valid()
      ensures var g := Get(old(networks), address, prefixlen);
        g.Failure? ==> r == Rejected(g.error) && networks == old(networks)
      ensures var g := Get(old(networks), address, prefixlen);
        g.Success? ==>
          var row := old(networks)[g.value];
          var u := Update(RowNet(row), newAddress, newPrefixlen);
          && (u.Failure? ==> r == Rejected(Unhandled(u.error)) && networks == old(networks))
          && (u.Success? ==> r == Done && networks == old(networks)[g.value := RowOf(u.value, row.owner)])
    {
      var g := Get(networks, address, prefixlen);
      if g.Failure? {
        return Rejected(g.error);
      }
      var i := g.value;
      assert networks[i] in networks;
      LoadValidRow(networks[i]);
      var network := new Network.Load(networks[i]);
      var error := ApplyChanges(network, newAddress, newPrefixlen);
      if error.Some? {
        return Rejected(Unhandled(error.value));
      }
      RowRoundTrip(network.network, network.owner);
      networks := networks[i := network.StoredRow()];
      r := Done;
    }

    /** delete: fetch the network; only its owner may delete it. */
    method Delete(user: string, address: string, prefixlen: int) returns (r: Response)
      requires Valid()
      modifies this
      ensures Valid()
      ensures var g := Get(old(networks), address, prefixlen);
        g.Failure? ==> r == Rejected(g.error) && networks == old(networks)
      ensures var g := Get(old(networks), address, prefixlen);
        g.Success? && old(networks)[g.value].owner != user ==>
          r == Rejected(Unauthorized) && networks == old(networks)
      ensures var g := Get(old(networks), address, prefixlen);
        g.Success? && old(networks)[g.value].owner == user ==>
          r == Done && networks == old(networks)[..g.value] + old(networks)[g.value + 1..]
    {
      var g := Get(networks, address, prefixlen);
      if g.Failure? {
        return Rejected(g.error);
      }
      var i := g.value;
      if networks[i].owner != user {
        return Rejected(Unauthorized);
      }
      networks := networks[..i] + networks[i + 1..];
      r := Done;
    }
  }

  /** The swapped call can never build a network: the text handed to
      `ip_network` starts with '<', so its address part is no dotted quad. */
  lemma SwappedArgumentsFail(email: string, address: string)
    ensures IpNetwork(UserRepr(email) + "/" + address) == Failure(BadAddress)
  {
    var text := UserRepr(email) + "/" + address;
    assert text[0] == '<';
    var parts := Split(text, '/');
    if |parts| <= 2 {
      assert parts[0][0] == '<';
      NotAnAddress(parts[0]);
    }
  }
}
