# ff-ip-api: IPv4 reservations, modelled in Dafny

ff-ip-api lets the members of a community network reserve IPv4 blocks.
This project models the part of it that reserves them:

- how a block `a.b.c.d/p` is stored as the pair `(address_packed, num_addresses)`;
- how the block is rebuilt from that pair when a row is loaded;
- how the `network_address` and `prefixlen` setters change a stored block;
- how the two queries over the `network` table (`overlaps_with` and `find`) select rows;
- how the `NetworkAPI` handlers `post`, `put` and `delete` change the table.

The small `User` rules are modelled as well: the password length, `verify_namespace` and `name`.

Modules, one per file:

- `Results` (results.dfy): `Option` and `Result`.
- `Text` (text.dfy): Python's `str.split`, `str.join`, `str(n)`, `int(s)` and `str.index`.
- `Arith` (arith.dfy): powers and the division facts the proofs need.
- `Ipv4` (ipv4.dfy): the part of Python's `ipaddress` module the application relies on. This is the strict parse of a dotted quad and of `address/prefixlen`, following the rules of the Python 2 backport: at most three digits per octet, no value above 255, no leading zero on a value above 7, after the '/' a prefix length of decimal digits at most 32, and no host bits set. The netmask and hostmask forms after the '/' are not modelled (see "## Left out"). It also renders the exploded text of a network.
- `Utils` (utils.dfy): app/utils.py. `get_factors_by` is a method with a loop. `get_prefix_len`, `gen_network` and `get_max_prefixlen` are functions.
- `Models` (models.dfy): app/models.py.
  - The `network` table is a sequence of `Row(addressPacked, numAddresses, owner)`.
  - `Network` is a class whose methods update its fields in place. `Network.Load` is the row loader followed by `init_on_load`.
  - `overlaps_with` and `find` are filters over the table.
  - `User` is a class.
- `Api` (api.dfy): app/api.py. `NetworkApi` is a class whose field `networks` is the table. Its methods `Post`, `Put` and `Delete` change the table, and a handler that raises or aborts leaves it as it was.
- `Scenarios` (scenarios.dfy): the fixture and the situations of tests/test_networks.py, stated over the model.

An owner is identified by its email, which is unique in the `user` table. Where the source raises, the model returns an error value:

- `NetError`: why `ipaddress` raises `ValueError`. The application sees only two messages: one for text that is not a network, and "has host bits set". The split between a bad address and a bad prefix is the model's own;
- `ApiError`: how a handler ends without success (400 for a caught `ValueError` or a conflict, 401, 404, and 500 for an exception no handler catches).

Where the code and the design description of the system disagree, the model follows the code:

- **Containment, not overlap.** `overlaps_with` selects the stored blocks that contain the request, not those that share an address with it. A request for a block around an existing smaller block is therefore accepted (`Models.LargerRequestNotReported`, `Scenarios.RequestAroundStoredBlock`).
- **No re-check on update.** `put` re-checks neither conflicts nor ownership. It can move a block onto another owner's block (`Api.UpdateIgnoresOtherNetworks`).
- **No allowed-ranges registry.** There is no check against a list of allowed ranges, and there is no first-fit search: post without an address calls a function that does not exist.
- **Conflict order.** Conflicts are listed in query order, taken here as table order, and not sorted by address.

## Model

| member | source | states |
|---|---|---|
| Utils.GetFactorsBy | app/utils.py:11-16 | For `num > 0` and `factor >= 2`, the loop returns k = FactorsBy(factor, num): `factor^k` divides `num` and `factor` does not divide `num / factor^k`. |
| Utils.FactorsByDivides | app/utils.py:11-16 | `num == factor^k * rest` with `rest % factor != 0`, where k is the count the loop returns. |
| Utils.FactorsByOfMultiple | app/utils.py:12-16 | Counting the factors of `factor^k * m`, with `m % factor != 0`, gives exactly k. |
| Utils.GetPrefixLen | app/utils.py:18-19 | The result is at most `max_prefixlen`, and equals it exactly when the block size is odd. |
| Utils.PrefixLenRoundTrip | app/utils.py:18-19 | For 0 <= p <= 32, `get_prefix_len(32, 2^(32-p)) == p`. |
| Utils.GenNetworkStrict | app/utils.py:24-25 | gen_network fails with a bad-address error on a malformed address and with a bad-prefix error on a prefix length outside 0..32. With host bits set it fails. Otherwise it is the network at that address with that prefix length. |
| Utils.GetMaxPrefixlen | app/utils.py:27-29 | Succeeds exactly on a parseable IPv4 address, and then is 32. |
| Ipv4.IpNetwork | app/utils.py:24-25 | A network that strict `ip_network` returns has a prefix length of at most 32, an address below 2^32 and no host bit set. |
| Ipv4.AddressRoundTrip | app/models.py:103-107 | The exploded text of any packed address below 2^32 parses back to that address. |
| Ipv4.CidrRoundTrip | app/models.py:124-126 | The exploded `a.b.c.d/p` text of a valid network parses back to that network. |
| Models.RowBlockInRange | app/models.py:92-93 | Every stored block lies inside the IPv4 space: `num_addresses` is at most 2^32, and `address_packed + num_addresses` is at most 2^32. |
| Models.RowRoundTrip | app/models.py:97-101 | The row a network is stored as is valid, and reading it back gives the same address and prefix length. |
| Models.LoadValidRow | app/models.py:103-107 | init_on_load on a valid row succeeds and yields the network the row stands for. |
| Models.LoadRoundTrip | app/models.py:97-107 | init_on_load on the row the constructor produced recovers the same address and prefix length. |
| Models.Network.constructor | app/models.py:97-101 | Sets `network` to gen_network's result, `address_packed` to the parsed address, `num_addresses` to `2^(32-p)`, and the owner. |
| Models.Network.Load | app/models.py:103-107 | Copies the row's columns and rebuilds `network` by init_on_load. On a valid row the object is consistent and its network is the row's network. |
| Models.Network.Cidr | app/models.py:124-126 | The cidr text parses back to the object's network. |
| Models.Network.NetworkAddress | app/models.py:128-130 | The exploded address parses back to `address_packed`. |
| Models.Network.Prefixlen | app/models.py:137-139 | The prefix length is at most 32, its block size is `num_addresses`, and it is what get_prefix_len recovers from `num_addresses`. |
| Models.Network.SetNetworkAddress | app/models.py:132-135 | Succeeds exactly when the new address parses and is aligned to the current block size. On success, `address_packed` is the new address. `num_addresses`, the prefix length and the owner never change, and a failure changes nothing. |
| Models.Network.SetPrefixlen | app/models.py:141-144 | Succeeds exactly when the prefix length is in 0..32 and the current address has no host bits under it. On success, `num_addresses` is `2^(32-p)`. `address_packed` and the owner never change, and a failure changes nothing. |
| Models.Filter | app/models.py:114-122 | A query keeps exactly the rows of the table that it selects, and no more rows than the table has. The order, table order, is stated by `Models.FilterAppend`. |
| Models.FilterAppend | app/models.py:114-122 | Filtering a table with a row appended is the old result, plus the row when it is selected. |
| Models.OverlapsWith | app/models.py:109-116 | On a bad request it fails with gen_network's error. Otherwise it selects exactly the rows with `address_packed <= a` and `a + 2^(32-p) <= address_packed + num_addresses`. |
| Models.Find | app/models.py:118-122 | On a bad request it fails with gen_network's error. Otherwise it selects exactly the rows whose `address_packed` and `num_addresses` both equal the request's. |
| Models.ContainsIsSuperset | app/models.py:114-116 | The overlaps_with filter holds exactly when every address of the request lies in the stored block. |
| Models.ContainsImpliesIntersects | app/models.py:114-116 | A stored block that the filter selects shares an address with the request. |
| Models.LargerRequestNotReported | app/models.py:114-116 | A request larger than a stored block is never reported for it, even when the two blocks share addresses. |
| Models.FindSelectsSameNetwork | app/models.py:118-122 | find selects exactly the stored rows that load as the requested network. |
| Models.User.SetPassword | app/models.py:31-38 | A password shorter than 6 characters is refused and changes nothing. Otherwise the salted hash and a fresh 32-character token are stored, and the email and the verified flag are unchanged. |
| Models.User.VerifyNamespace | app/models.py:61-63 | The result is 'lost_password' exactly when the user is verified, and 'registration' exactly when not. |
| Models.User.Name | app/models.py:70-72 | Defined exactly when the email holds an '@'. It is then the part of the email before the first '@'. |
| Api.ConflictMessageLists | app/api.py:133-136 | The conflict message is 'ip address conflict: ' followed by one CIDR per conflicting row, in query order and separated by ','. Each CIDR parses back to its row's network. |
| Api.ValidatePost | app/api.py:123-136 | Whatever post accepts can be constructed as a network. |
| Api.PostAcceptance | app/api.py:123-136 | post accepts a request exactly when all of these hold: an address is given and parses; the prefix length, defaulting to the address's maximum of 32, is in 0..32; the address has no host bits under it; and no stored block contains the requested one. It then builds that address and prefix length. |
| Api.PostConflict | app/api.py:133-136 | A request contained in a stored block is refused. The conflict message lists the containing rows, that block among them. |
| Api.FindAppended | app/api.py:142-145 | A row appended to a table where find matched nothing is then find's only result. |
| Api.PostThenFind | app/api.py:142-145 | After a successful post, find on the same address and prefix length returns exactly the new row, whose network has that address and prefix length. |
| Api.Get | app/api.py:152 | `get(...).first_or_404()`, with get taken as find. It fails as gen_network does on a bad request, and gives 404 exactly when find selects nothing. Otherwise it gives the first row find selects. |
| Api.Update | app/api.py:154-158 | A successful result is a valid network, and a put with neither field leaves the network as it is. Which network each combination yields, and that the address is checked first, against the old prefix length, is stated by `Api.UpdateAddressOnly`, `Api.UpdatePrefixOnly`, `Api.UpdateBoth` and `Api.UpdateOrderMatters`. |
| Api.UpdateAddressOnly | app/api.py:153-154 | With only an address given, put succeeds exactly when the address parses and is aligned to the current block size. The result is then that address with the old prefix length. |
| Api.UpdatePrefixOnly | app/api.py:156-157 | With only a prefix length given, put succeeds exactly when it is in 0..32 and the current address has no host bits under it. The result is then the same address with that prefix length. |
| Api.UpdateBoth | app/api.py:154-158 | With both fields given, put succeeds exactly when the new address parses, is aligned to the OLD block size, and has no host bits under the new prefix length in 0..32. The result is then that address with that prefix length. |
| Api.UpdateOrderMatters | app/api.py:154-158 | A /24 cannot be moved to the upper half of a /24 as a /25, although the target is a valid network: the address is checked first, against the old prefix. |
| Api.UpdateIgnoresOtherNetworks | app/api.py:151-160 | put moves a block onto another stored block of the same size without complaint, and afterwards each of the two rows contains the other. |
| Api.ApplyChanges | app/api.py:154-158 | The two setters, called in order, leave the network that Update computes, or stop with Update's error. The owner is unchanged. |
| Api.NetworkApi.Post | app/api.py:123-149 | Corrected post. A refused request returns its error and leaves the table unchanged. An accepted one appends exactly one row, the new network with the poster as owner. |
| Api.NetworkApi.PostAsWritten | app/api.py:142-147 | post as written. Every request that gets past the checks ends in an uncaught bad-address error, and the table never changes. |
| Api.SwappedArgumentsFail | app/api.py:143 | `repr(user) + '/' + address` is never a network, whatever the email and the address. |
| Api.NetworkApi.Put | app/api.py:151-162 | A missing network returns 404, or the query's error, and changes nothing, as does a setter that raises. Otherwise the fetched row is replaced by the updated network, with the same owner and no other row changed. |
| Api.NetworkApi.Delete | app/api.py:164-171 | A missing network returns 404 or the query's error. A caller other than the owner gets 401. In both cases the table is unchanged. The owner's call removes exactly that row. |
| Scenarios.RequestAroundStoredBlock | app/models.py:114-116 | With 192.168.0.0/26 stored, a request for 192.168.0.0/24 finds no conflict and is accepted, although the two blocks intersect. |
| Scenarios.RequestInsideStoredBlock | app/api.py:133-136 | With 192.168.0.0/26 stored, a request for 192.168.0.0/29 is refused with "ip address conflict: 192.168.0.0/26". |
| Scenarios.CreateNewNetwork | tests/test_networks.py:11-24 | Posting 10.0.0.0/28 takes the table from 1 row to 2, and find then returns exactly the new row. |
| Scenarios.CreateNewNetworkAsWritten | app/api.py:142-147 | The same post through the code as written is refused, and the table keeps its single row. |
| Scenarios.DeleteNetwork | tests/test_networks.py:46-54 | Another user's delete is refused with 401 and the table keeps 1 row. The owner's delete leaves 0 rows. |

## Left out

- Ipv4.IpNetwork: does not accept a dotted netmask or hostmask after the '/' (`10.0.0.0/255.255.255.0`), which `ipaddress` reads as a prefix length. No caller can reach that form: gen_network puts `str(prefixlen)` of an integer after its own '/', and a '/' inside the address gives three parts, which fail as a bad address.
- IPv6. `ip_address(int)` yields an IPv4 address for every packed value below 2^32. An IPv6 text is treated as a malformed address.
- `Network.next_unused_network`, `Network.get` and `Network.get_all` are called but defined nowhere.
  - A post without an address ends in the `NoFreeBlockSearch` error.
  - `get(...).first_or_404()` in put and delete is modelled as `find` taking the first row.
  - The `get` handler of NetworkAPI is not modelled.
- Flask routing, authentication (`requires_auth`, `User.auth`), `jsonify` and the error handlers are left out, and so are the user handlers, mail and signed tokens.
  - The caller's identity is a parameter.
  - The form fields are `Option` parameters.
  - A `prefixlen` form field that does not read as an integer is taken as absent in post, where `request.form.get(..., type=int)` falls back to the default.
  - In put, `int()` raises on such a field; that path is not modelled.
- `hash_password` (SHA-256) and `gen_random_hash` (random) are parameters of `Models.User.SetPassword`.
- `User.__init__`, `validate_email`, every `as_dict` and every `__repr__` are left out, except `repr(user)`, which the as-written post needs.
- The database session is left out: commit, rollback and concurrency. A handler that raises changes nothing, and its changes are written back in one step.
- Query order is taken as table order.
- The stored columns are mathematical integers. `Models.RowBlockInRange` bounds `num_addresses` by 2^32, but the `Integer` column for it is 32 bits wide in common databases, so it cannot hold the 2^31 or 2^32 addresses of a /1 or /0 block. The model does not capture that overflow.
- Models.Network.constructor: requires that gen_network succeeds. The ValueError it would otherwise raise is stated by `Utils.GenNetworkStrict` and reached through `Api.ValidatePost`.
- Models.Network.Load: requires that init_on_load succeeds on the row. Every row the model stores is valid and loads (`Models.LoadValidRow`).

## Findings

| source | as written | input that shows it | evidently intended | confidence | as-written member | corrected member |
|---|---|---|---|---|---|---|
| app/api.py:143 | `Network(g.user, address, prefixlen)`, while the constructor is `__init__(self, address, prefixlen, owner)` (app/models.py:97) | any post that passes the conflict check, e.g. 10.0.0.0/28 by test@test.de: gen_network receives `"<User test@test.de>/10.0.0.0"`, raises a ValueError that `except AssertionError` does not catch, and nothing is stored | `Network(address, prefixlen, g.user)`, the order the test fixture uses (tests/__init__.py:28) | high, not executed | Api.NetworkApi.PostAsWritten, Api.SwappedArgumentsFail | Api.NetworkApi.Post |
