/**
 * The Windows instance parser: turns the instance ConfigMap data, a map from
 * address to "username=<name>", into instance records linked to the cluster
 * node that lists the address, and finds the username configured for a node.
 */
module WiParser {
  import opened Wrappers
  import opened Cluster

  /* ---------------------------------------------------------------------- */
  /* Oracles for the network library                                       */
  /* ---------------------------------------------------------------------- */

  /** What net.ParseIP and To4 say of a string: not an IP literal, an IPv4
      literal (To4 is non-nil), or another IP literal (IPv6). */
  datatype IpClass = NotIp | IPv4 | IPv6

  /** What net.LookupHost returns: an error, or the list of resolved addresses. */
  datatype Lookup = LookupFailed | Resolved(addrs: seq<string>)

  /** The network library as seen by the parser. */
  datatype Net = Net(parseIP: string -> IpClass, lookupHost: string -> Lookup)

  /* ---------------------------------------------------------------------- */
  /* Errors                                                                 */
  /* ---------------------------------------------------------------------- */

  datatype AddressError = Ipv6NotSupported | DnsLookupFailed | DnsNoAddress

  /** IndexOutOfRange is not a returned error: it is the Go runtime panic of
      reading splitData[1] from a one-element slice. */
  datatype DecodeError = IncorrectFormat | IndexOutOfRange

  datatype ParseError =
    | NilNodes
    | InvalidAddress(address: string, reason: AddressError)
    | BadUsername(address: string, cause: DecodeError)

  datatype UsernameError =
    | NilNode
    | NoMatchingInstance(nodeName: string)
    | Decode(cause: DecodeError)

  /* ---------------------------------------------------------------------- */
  /* validateAddress                                                        */
  /* ---------------------------------------------------------------------- */

  /** An IPv4 literal is accepted, any other IP literal is rejected, and
      anything else must resolve to at least one address. */
  function ValidateAddress(net: Net, address: string): (r: Result<(), AddressError>)
    ensures r.Ok? <==>
              || net.parseIP(address) == IPv4
              || (net.parseIP(address) == NotIp && net.lookupHost(address).Resolved?
                  && |net.lookupHost(address).addrs| > 0)
  {
    match net.parseIP(address)
    case IPv4 => Ok(())
    case IPv6 => Err(Ipv6NotSupported)
    case NotIp =>
      match net.lookupHost(address)
      case LookupFailed => Err(DnsLookupFailed)
      case Resolved(addrs) => if |addrs| == 0 then Err(DnsNoAddress) else Ok(())
  }

  /** The addresses validateAddress accepts, and the reason it gives for the others. */
  lemma AcceptedAddresses(net: Net, address: string)
    ensures ValidateAddress(net, address).Ok? <==>
              || net.parseIP(address) == IPv4
              || (net.parseIP(address) == NotIp && net.lookupHost(address).Resolved?
                  && |net.lookupHost(address).addrs| > 0)
    ensures ValidateAddress(net, address) == Err(Ipv6NotSupported) <==> net.parseIP(address) == IPv6
    ensures ValidateAddress(net, address) == Err(DnsLookupFailed) <==>
              net.parseIP(address) == NotIp && net.lookupHost(address) == LookupFailed
    ensures ValidateAddress(net, address) == Err(DnsNoAddress) <==>
              net.parseIP(address) == NotIp && net.lookupHost(address) == Resolved([])
  {
  }

  /** An IP literal is judged without consulting DNS: two resolvers that agree
      on the literal's class give the same verdict. */
  lemma LiteralSkipsDns(net: Net, net': Net, address: string)
    requires net.parseIP(address) != NotIp && net'.parseIP(address) == net.parseIP(address)
    ensures ValidateAddress(net, address) == ValidateAddress(net', address)
  {
  }

  /* ---------------------------------------------------------------------- */
  /* extractUsername                                                        */
  /* ---------------------------------------------------------------------- */

  /** Position of the first c in s, as strings.Index finds a one-character separator. */
  function IndexOf(s: string, c: char): (r: Option<nat>)
    ensures r.Some? ==> r.value < |s| && s[r.value] == c && c !in s[..r.value]
    ensures r.None? <==> c !in s
  {
    if |s| == 0 then None
    else if s[0] == c then Some(0)
    else
      match IndexOf(s[1..], c)
      case None => None
      case Some(i) =>
        assert s[..i + 1] == [s[0]] + s[1..][..i];
        Some(i + 1)
  }

  /** The first c in s is the only position before which s holds no c. */
  lemma IndexOfFirst(s: string, c: char, i: nat)
    requires i < |s| && s[i] == c && c !in s[..i]
    ensures IndexOf(s, c) == Some(i)
  {
  }

  /** strings.SplitN(s, "=", 2): the text before the first "=" and the text after
      it, or s alone when it holds no "=". */
  function SplitN2(s: string): (parts: seq<string>)
    ensures |parts| == 1 || |parts| == 2
    ensures |parts| == 1 <==> '=' !in s
    ensures |parts| == 1 ==> parts[0] == s
    ensures |parts| == 2 ==> '=' !in parts[0] && parts[0] + "=" + parts[1] == s
  {
    match IndexOf(s, '=')
    case None => [s]
    case Some(i) =>
      assert s[..i] + "=" + s[i + 1..] == s;
      [s[..i], s[i + 1..]]
  }

  /** extractUsername: the value part of "username=<value>", untrimmed. The guard
      on an empty split never fires; a bare "username" reaches splitData[1]. */
  function ExtractUsername(value: string): (r: Result<string, DecodeError>)
    ensures r.Ok? ==> value == "username=" + r.value
    ensures r == Err(IndexOutOfRange) ==> value == "username"
  {
    var splitData := SplitN2(value);
    if |splitData| == 0 || splitData[0] != "username" then Err(IncorrectFormat)
    else if |splitData| < 2 then Err(IndexOutOfRange)
    else Ok(splitData[1])
  }

  /** Decoding inverts "username=" + name, for every name: untrimmed, possibly
      empty, possibly holding "=" itself. */
  lemma ExtractUsernameInverse(value: string, name: string)
    ensures ExtractUsername(value) == Ok(name) <==> value == "username=" + name
  {
    if value == "username=" + name {
      assert value[..8] == "username";
      IndexOfFirst(value, '=', 8);
      assert value[9..] == name;
    }
  }

  /** The three outcomes of extractUsername: success exactly on a "username="
      prefix, the runtime panic exactly on the bare key, a format error exactly
      when the text before the first "=" (all of it when there is none) is not
      "username". */
  lemma ExtractUsernameCases(value: string)
    ensures ExtractUsername(value).Ok? <==> "username=" <= value
    ensures ExtractUsername(value) == Err(IndexOutOfRange) <==> value == "username"
    ensures ExtractUsername(value) == Err(IncorrectFormat) <==> SplitN2(value)[0] != "username"
  {
    if "username=" <= value {
      assert value == "username=" + value[9..];
      ExtractUsernameInverse(value, value[9..]);
    }
    if value == "username" {
      assert '=' !in value;
    }
  }

  /** extractUsername with the guard its empty-split test evidently stands for:
      fewer than two parts is a format error, so no input reaches a missing
      value part. */
  function ExtractUsernameGuarded(value: string): (r: Result<string, DecodeError>)
    ensures r != Err(IndexOutOfRange)
    ensures r.Ok? ==> value == "username=" + r.value
  {
    var splitData := SplitN2(value);
    if |splitData| < 2 || splitData[0] != "username" then Err(IncorrectFormat)
    else Ok(splitData[1])
  }

  /** The guarded decoder rejects the bare key with a format error and agrees
      with extractUsername as written on every other input. */
  lemma GuardedDecoderAgrees(value: string)
    ensures ExtractUsernameGuarded("username") == Err(IncorrectFormat)
    ensures value != "username" ==> ExtractUsernameGuarded(value) == ExtractUsername(value)
  {
    ExtractUsernameCases("username");
    ExtractUsernameCases(value);
  }

  /** Three rejected directives: a wrong key, the empty string, and the bare key,
      which panics. These are instances of ExtractUsernameCases, kept as
      documentation of the three cases; the last one shows the guard at
      extractUsername letting the bare key through. */
  lemma DecoderRejectsExamples()
    ensures ExtractUsername("user=alice") == Err(IncorrectFormat)
    ensures ExtractUsername("") == Err(IncorrectFormat)
    ensures ExtractUsername("username") == Err(IndexOutOfRange)
  {
    var wrongKey := "user=alice";
    assert wrongKey[..4] == "user";
    IndexOfFirst(wrongKey, '=', 4);
    assert SplitN2(wrongKey)[0] == "user";
    ExtractUsernameCases("");
    ExtractUsernameCases("username");
  }

  /* ---------------------------------------------------------------------- */
  /* Parse                                                                  */
  /* ---------------------------------------------------------------------- */

  /** An order in which Go's range over data may visit its keys: each key once. */
  predicate IsIterationOrder(order: seq<string>, data: map<string, string>)
  {
    && (forall i :: 0 <= i < |order| ==> order[i] in data)
    && (forall a :: a in data ==> a in order)
    && (forall i, j :: 0 <= i < j < |order| ==> order[i] != order[j])
  }

  /** Every key of keys is in data, passes address validation and decodes. */
  predicate AllClean(net: Net, data: map<string, string>, keys: seq<string>)
  {
    forall i :: 0 <= i < |keys| ==>
      keys[i] in data && ValidateAddress(net, keys[i]).Ok? && ExtractUsername(data[keys[i]]).Ok?
  }

  /** info is the record Parse builds for address:
      NewInfo(address, username, "", false, FindByAddress(address, nodes)). */
  predicate BuiltFor(net: Net, data: map<string, string>, nodes: NodeList, address: string, info: Info)
  {
    && address in data
    && ValidateAddress(net, address).Ok?
    && ExtractUsername(data[address]) == Ok(info.username)
    && info.address == address
    && info.newHostname == ""
    && !info.setHostname
    && info.node == FindByAddress(address, nodes)
  }

  /** items holds one record per key of keys, in the same order. */
  predicate BuiltInOrder(net: Net, data: map<string, string>, nodes: NodeList, keys: seq<string>, items: seq<Info>)
  {
    |items| == |keys| && forall i :: 0 <= i < |keys| ==> BuiltFor(net, data, nodes, keys[i], items[i])
  }

  function Addresses(items: seq<Info>): (r: set<string>)
  {
    set i | 0 <= i < |items| :: items[i].address
  }

  /** Parse, visiting the keys of data in the given order. instances None is
      Go's nil slice; when decoding panics, Parse does not return, which is
      shown as nil instances with a BadUsername(_, IndexOutOfRange) error. */
  method Parse(net: Net, data: map<string, string>, order: seq<string>, nodes: Option<NodeList>)
    returns (instances: Option<seq<Info>>, err: Option<ParseError>)
    requires IsIterationOrder(order, data)
    ensures err == Some(NilNodes) <==> nodes.None?
    ensures nodes.None? ==> instances.None?
    ensures err.None? <==>
              nodes.Some? && forall a :: a in data ==> ValidateAddress(net, a).Ok? && ExtractUsername(data[a]).Ok?
    ensures err.None? ==>
              && instances.Some?
              && BuiltInOrder(net, data, nodes.value, order, instances.value)
              && |instances.value| == |data|
              && Addresses(instances.value) == data.Keys
    ensures err.Some? && err.value.InvalidAddress? ==>
              && instances.None?
              && exists k :: 0 <= k < |order| && order[k] == err.value.address
                   && ValidateAddress(net, order[k]) == Err(err.value.reason)
                   && AllClean(net, data, order[..k])
    ensures err.Some? && err.value.BadUsername? ==>
              && nodes.Some?
              && exists k :: 0 <= k < |order| && order[k] == err.value.address
                   && ValidateAddress(net, order[k]).Ok?
                   && ExtractUsername(data[order[k]]) == Err(err.value.cause)
                   && AllClean(net, data, order[..k])
                   && (err.value.cause == IndexOutOfRange ==> instances.None?)
                   && (err.value.cause == IncorrectFormat ==>
                         instances.Some? && BuiltInOrder(net, data, nodes.value, order[..k], instances.value))
  {
    if nodes.None? {
      return None, Some(NilNodes);
    }
    var items: seq<Info> := [];
    var k := 0;
    while k < |order|
      invariant 0 <= k <= |order|
      invariant BuiltInOrder(net, data, nodes.value, order[..k], items)
      invariant AllClean(net, data, order[..k])
    {
      var address := order[k];
      var valid := ValidateAddress(net, address);
      if valid.Err? {
        assert address in data && !ValidateAddress(net, address).Ok?;
        assert order[k] == address && ValidateAddress(net, order[k]) == Err(valid.error)
            && AllClean(net, data, order[..k]);
        return None, Some(InvalidAddress(address, valid.error));
      }
      var username := ExtractUsername(data[address]);
      if username.Err? {
        assert address in data && !ExtractUsername(data[address]).Ok?;
        assert order[k] == address && ValidateAddress(net, order[k]).Ok?
            && ExtractUsername(data[order[k]]) == Err(username.error)
            && AllClean(net, data, order[..k]);
        if username.error == IndexOutOfRange {
          return None, Some(BadUsername(address, IndexOutOfRange));
        }
        return Some(items), Some(BadUsername(address, username.error));
      }
      var node := FindByAddress(address, nodes.value);
      var info := Info(address, username.value, "", false, node);
      BuiltInOrderStep(net, data, nodes.value, order, k, items, info);
      items := items + [info];
      k := k + 1;
    }
    assert order[..k] == order;
    CleanOrderCoversKeys(net, data, order);
    SuccessCoversKeys(net, data, nodes.value, order, items);
    return Some(items), None;
  }

  /** Appending the record for the next key keeps items one record per visited key. */
  lemma BuiltInOrderStep(net: Net, data: map<string, string>, nodes: NodeList, order: seq<string>,
                         k: nat, items: seq<Info>, info: Info)
    requires k < |order|
    requires BuiltInOrder(net, data, nodes, order[..k], items) && AllClean(net, data, order[..k])
    requires BuiltFor(net, data, nodes, order[k], info)
    ensures BuiltInOrder(net, data, nodes, order[..k + 1], items + [info])
    ensures AllClean(net, data, order[..k + 1])
  {
    assert order[..k + 1] == order[..k] + [order[k]];
  }

  /** When every key of an iteration order is clean, every key of the map is. */
  lemma CleanOrderCoversKeys(net: Net, data: map<string, string>, order: seq<string>)
    requires IsIterationOrder(order, data)
    requires AllClean(net, data, order)
    ensures forall a :: a in data ==> ValidateAddress(net, a).Ok? && ExtractUsername(data[a]).Ok?
  {
  }

  /** The records of a successful Parse are one per map entry: as many as the
      map has keys, and their addresses are exactly the keys. */
  lemma SuccessCoversKeys(net: Net, data: map<string, string>, nodes: NodeList, order: seq<string>, items: seq<Info>)
    requires IsIterationOrder(order, data)
    requires BuiltInOrder(net, data, nodes, order, items)
    ensures |items| == |data|
    ensures Addresses(items) == data.Keys
    ensures forall i, j :: 0 <= i < j < |items| ==> items[i].address != items[j].address
  {
    forall i | 0 <= i < |items| ensures items[i].address == order[i] {
      assert BuiltFor(net, data, nodes, order[i], items[i]);
    }
    AddressesFollowOrder(data, order, items);
  }

  /** Records whose addresses follow an iteration order, one to one, cover the keys once each. */
  lemma AddressesFollowOrder(data: map<string, string>, order: seq<string>, items: seq<Info>)
    requires IsIterationOrder(order, data)
    requires |items| == |order|
    requires forall i :: 0 <= i < |items| ==> items[i].address == order[i]
    ensures |items| == |data|
    ensures Addresses(items) == data.Keys
    ensures forall i, j :: 0 <= i < j < |items| ==> items[i].address != items[j].address
  {
    DistinctCard(order);
    assert Elements(order) == data.Keys by {
      forall a | a in data ensures a in Elements(order) {
        assert a in order;
      }
    }
    assert Addresses(items) == Elements(order) by {
      forall a | a in Addresses(items) ensures a in Elements(order) {
        var i :| 0 <= i < |items| && items[i].address == a;
        assert order[i] == a;
      }
      forall a | a in Elements(order) ensures a in Addresses(items) {
        var i :| 0 <= i < |order| && order[i] == a;
        assert items[i].address == a;
      }
    }
    assert |data| == |data.Keys|;
  }

  function Elements(s: seq<string>): (e: set<string>)
    ensures forall x :: x in e <==> x in s
  {
    if s == [] then {} else Elements(s[..|s| - 1]) + {s[|s| - 1]}
  }

  lemma {:induction false} DistinctCard(s: seq<string>)
    requires forall i, j :: 0 <= i < j < |s| ==> s[i] != s[j]
    ensures |Elements(s)| == |s|
  {
    if s != [] {
      var init := s[..|s| - 1];
      DistinctCard(init);
      assert s[|s| - 1] !in init;
    }
  }

  /* ---------------------------------------------------------------------- */
  /* GetNodeUsername                                                        */
  /* ---------------------------------------------------------------------- */

  /** addresses[i] is the first of the node's addresses that is a key of data. */
  predicate FirstListedAt(addresses: seq<NodeAddress>, data: map<string, string>, i: int)
  {
    && 0 <= i < |addresses|
    && addresses[i].address in data
    && forall j :: 0 <= j < i ==> addresses[j].address !in data
  }

  /** The decoder's result as GetNodeUsername returns it. */
  function AsNodeUsername(d: Result<string, DecodeError>): (r: Result<string, UsernameError>)
  {
    match d
    case Ok(name) => Ok(name)
    case Err(e) => Err(Decode(e))
  }

  /** GetNodeUsername: the decoded directive of the first of the node's
      addresses that data lists, decoding errors included, without trying
      later addresses. */
  method GetNodeUsername(data: map<string, string>, node: Option<Node>) returns (r: Result<string, UsernameError>)
    ensures node.None? ==> r == Err(NilNode)
    ensures node.Some? && (forall i :: 0 <= i < |node.value.addresses| ==> node.value.addresses[i].address !in data) ==>
              r == Err(NoMatchingInstance(node.value.name))
    ensures node.Some? ==> forall i :: FirstListedAt(node.value.addresses, data, i) ==>
              r == AsNodeUsername(ExtractUsername(data[node.value.addresses[i].address]))
  {
    if node.None? {
      return Err(NilNode);
    }
    var addresses := node.value.addresses;
    for i := 0 to |addresses|
      invariant forall j :: 0 <= j < i ==> addresses[j].address !in data
    {
      if addresses[i].address in data {
        assert FirstListedAt(addresses, data, i);
        return AsNodeUsername(ExtractUsername(data[addresses[i].address]));
      }
    }
    return Err(NoMatchingInstance(node.value.name));
  }
}
