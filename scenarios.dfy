/** The situations of tests/test_networks.py over the fixture of
    tests/__init__.py: one user `test@test.de` owning 192.168.0.0/26. */
module Scenarios {
  import opened Results
  import opened Text
  import opened Arith
  import opened Ipv4
  import opened Utils
  import opened Models
  import opened Api

  const FixtureOwner: string := "test@test.de"
  const FixtureAddress: nat := 0xC0A8_0000   // 192.168.0.0
  const NewAddress: nat := 0x0A00_0000       // 10.0.0.0

  /** The fixture network as the constructor stores it: 192.168.0.0/26,
      a block of 64 addresses. */
  function FixtureRow(): Row {
    Row(FixtureAddress, 64, FixtureOwner)
  }

  lemma BlockSizes()
    ensures BlockSize(24) == 256 && BlockSize(26) == 64 && BlockSize(28) == 16 && BlockSize(29) == 8
  {
    assert BlockSize(29) == Pow(2, 3) == 8;
    assert BlockSize(24) == Pow(2, 8) == 256;
    assert BlockSize(26) == Pow(2, 6) == 64;
    assert BlockSize(28) == Pow(2, 4) == 16;
  }

  lemma FixtureRowValid()
    ensures ValidNet(Net(FixtureAddress, 26))
    ensures FixtureRow() == RowOf(Net(FixtureAddress, 26), FixtureOwner)
    ensures RowValid(FixtureRow()) && RowNet(FixtureRow()) == Net(FixtureAddress, 26)
  {
    BlockSizes();
    RowRoundTrip(Net(FixtureAddress, 26), FixtureOwner);
  }

  /** The table after the fixture is set up. */
  function Fixture(): (table: seq<Row>)
    ensures table == [FixtureRow()] && forall row :: row in table ==> RowValid(row)
  {
    FixtureRowValid();
    [FixtureRow()]
  }

  lemma FixtureText()
    ensures Exploded(FixtureAddress) == "192.168.0.0"
  {
    assert Octets(FixtureAddress) == [192, 168, 0, 0];
    assert NatToDecimal(192) == "192";
    assert NatToDecimal(168) == "168";
    assert NatToDecimal(0) == "0";
  }

  lemma NewText()
    ensures Exploded(NewAddress) == "10.0.0.0"
  {
    assert Octets(NewAddress) == [10, 0, 0, 0];
    assert NatToDecimal(10) == "10";
    assert NatToDecimal(0) == "0";
  }

  /** The dotted quads of the tests read as the expected packed addresses. */
  lemma TestAddresses()
    ensures ParseAddress("192.168.0.0") == Some(FixtureAddress)
    ensures ParseAddress("10.0.0.0") == Some(NewAddress)
  {
    FixtureText();
    AddressRoundTrip(FixtureAddress);
    NewText();
    AddressRoundTrip(NewAddress);
  }

  /** The fixture table filtered by a query for a block of the fixture's
      address. */
  lemma FixtureFilter(prefixlen: nat)
    requires prefixlen <= MaxPrefixlen
    ensures var q := Containing(Net(FixtureAddress, prefixlen));
      Filter(Fixture(), q) == if Selects(q, FixtureRow()) then [FixtureRow()] else []
  {
    FilterAppend([], FixtureRow(), Containing(Net(FixtureAddress, prefixlen)));
    assert [] + [FixtureRow()] == Fixture();
  }

  /** Containment rather than overlap: asking for 192.168.0.0/24, which
      holds the stored 192.168.0.0/26, reports no conflict although the two
      blocks share all 64 addresses of the smaller one. */
  lemma RequestAroundStoredBlock()
    ensures OverlapsWith(Fixture(), "192.168.0.0", 24) == Success([])
    ensures Intersects(Net(FixtureAddress, 26), Net(FixtureAddress, 24))
    ensures ValidatePost(Fixture(), Some("192.168.0.0"), Some(24)).Success?
  {
    BlockSizes();
    assert GenNetwork("192.168.0.0", 24) == Success(Net(FixtureAddress, 24)) by {
      TestAddresses();
      GenNetworkStrict("192.168.0.0", 24);
    }
    assert !Contains(FixtureRow(), Net(FixtureAddress, 24));
    FixtureFilter(24);
    assert ValidatePost(Fixture(), Some("192.168.0.0"), Some(24)).Success? by {
      TestAddresses();
      assert GetMaxPrefixlen("192.168.0.0").Success?;
    }
  }

  /** The conflict message naming the fixture network. */
  lemma FixtureConflictMessage()
    ensures ConflictMessage(Fixture()) == "ip address conflict: 192.168.0.0/26"
  {
    FixtureRowValid();
    FixtureText();
    assert NatToDecimal(26) == "26";
    assert RowCidr(FixtureRow()) == "192.168.0.0/26";
    assert Cidrs(Fixture()) == ["192.168.0.0/26"];
  }

  /** A request inside the stored block, 192.168.0.0/29, is refused and the
      refusal names the stored block: "ip address conflict: 192.168.0.0/26". */
  lemma RequestInsideStoredBlock()
    ensures OverlapsWith(Fixture(), "192.168.0.0", 29) == Success([FixtureRow()])
    ensures ValidatePost(Fixture(), Some("192.168.0.0"), Some(29))
      == Failure(Conflict("ip address conflict: 192.168.0.0/26"))
  {
    BlockSizes();
    assert GenNetwork("192.168.0.0", 29) == Success(Net(FixtureAddress, 29)) by {
      TestAddresses();
      GenNetworkStrict("192.168.0.0", 29);
    }
    assert Contains(FixtureRow(), Net(FixtureAddress, 29));
    FixtureFilter(29);
    FixtureConflictMessage();
    PostConflict(Fixture(), "192.168.0.0", Some(29), FixtureRow());
  }

  /** The request of test_create_new_network, 10.0.0.0/28, passes every
      check of post: it lies outside the stored block. */
  lemma NewNetworkAccepted()
    ensures GenNetwork("10.0.0.0", 28) == Success(Net(NewAddress, 28))
    ensures ValidatePost(Fixture(), Some("10.0.0.0"), Some(28)) == Success(("10.0.0.0", 28))
  {
    BlockSizes();
    TestAddresses();
    GenNetworkStrict("10.0.0.0", 28);
    assert !Contains(FixtureRow(), Net(NewAddress, 28));
    PostAcceptance(Fixture(), Some("10.0.0.0"), Some(28));
  }

  /** test_create_new_network: posting 10.0.0.0/28 takes the table from one
      network to two, and find returns the new one: address 10.0.0.0, 16
      addresses, owned by the poster. */
  method CreateNewNetwork() returns (before: nat, after: nat, found: seq<Row>)
    ensures before == 1 && after == 2
    ensures found == [Row(NewAddress, 16, FixtureOwner)]
  {
    var api := new NetworkApi(Fixture());
    before := |api.networks|;
    NewNetworkAccepted();
    BlockSizes();
    var r := api.Post(FixtureOwner, Some("10.0.0.0"), Some(28));
    after := |api.networks|;
    PostThenFind(Fixture(), FixtureOwner, "10.0.0.0", Some(28));
    found := Find(api.networks, "10.0.0.0", 28).value;
  }

  /** The same request through post as written stores nothing. */
  method CreateNewNetworkAsWritten() returns (before: nat, after: nat, r: Response)
    ensures before == 1 && after == 1 && r == Rejected(Unhandled(BadAddress))
  {
    var api := new NetworkApi(Fixture());
    before := |api.networks|;
    NewNetworkAccepted();
    r := api.PostAsWritten(FixtureOwner, Some("10.0.0.0"), Some(28));
    after := |api.networks|;
  }

  /** The fixture network is found at the head of the table. */
  lemma FixtureFound()
    ensures Get(Fixture(), "192.168.0.0", 26) == Success(0)
  {
    BlockSizes();
    TestAddresses();
    GenNetworkStrict("192.168.0.0", 26);
  }

  /** test_delete_network: the owner deletes 192.168.0.0/26 and the table is
      empty; anyone else is refused and the table keeps it. */
  method DeleteNetwork(other: string) returns (refused: Response, kept: nat, deleted: Response, left: nat)
    requires other != FixtureOwner
    ensures refused == Rejected(Unauthorized) && kept == 1
    ensures deleted == Done && left == 0
  {
    var api := new NetworkApi(Fixture());
    FixtureFound();
    refused := api.Delete(other, "192.168.0.0", 26);
    kept := |api.networks|;
    deleted := api.Delete(FixtureOwner, "192.168.0.0", 26);
    left := |api.networks|;
  }
}
