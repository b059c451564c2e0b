# Windows instance parser, modelled in Dafny

This project models the instance parser of the Windows Machine Config Operator.
The parser reads the `windows-instances` ConfigMap data and the cluster's
Windows nodes. It turns each entry `<address>: username=<name>` into an
instance record: the address, the username, and a reference to the node that
lists that address, if one does. It also does the reverse lookup: the username
configured for a given node.

- `wrappers.dfy`, module `Wrappers`: `Option` (Go's nil) and `Result` (Go's `(value, error)`).
- `cluster.dfy`, module `Cluster`: node descriptors (`Node`, `NodeAddress`, `NodeList`), the instance record
  `Info`, and `FindByAddress`, the node search of the nodeutil package.
- `wiparser.dfy`, module `WiParser`: `ValidateAddress`, `SplitN2` (`strings.SplitN(_, "=", 2)`),
  `ExtractUsername`, the method `Parse`, the method `GetNodeUsername`, and the lemmas about them.

Modelling choices:

- Go map iteration order is unspecified. `Parse` therefore takes an extra `order` argument. This is any
  sequence that lists every key of the map exactly once (`IsIterationOrder`). Every contract holds for
  every such order.
- `net.ParseIP`/`To4` and `net.LookupHost` are oracles, in the datatype `Net`. The IP oracle maps a
  string to `NotIp`, `IPv4` or `IPv6`. The DNS oracle maps a string to `LookupFailed` or
  `Resolved(addresses)`.
- A nil slice is `None`; an empty slice is `Some([])`. Both the address failure (nil) and the decode
  failure (the records so far, possibly none) are modelled.
- The node reference in an `Info` is an index into the `NodeList` it was built against.
- `instance.NewInfo` is the `Info` constructor. It is called with `""` and `false` for its third and
  fourth arguments. The field names `newHostname` and `setHostname` are assumed, because the instance
  package is not part of this model.
- Errors are kinds, not message strings.

The guard at `pkg/wiparser/wiparser.go:108` is evidently meant to reject a payload without `=`. But it
tests `len(splitData) == 0`, and `strings.SplitN` with n=2 never returns zero parts. So the payload
`"username"` passes the guard, and reading `splitData[1]` at line 111 panics with index out of range.
The model follows the code as written:
- `ExtractUsername` returns `Err(IndexOutOfRange)` for that input, and `ExtractUsernameCases` shows it
  does so for that input alone.
- `Parse` passes the panic on as nil instances with `BadUsername(address, IndexOutOfRange)`, because in
  Go nothing is returned at all.
- `GetNodeUsername` passes it on as `Err(Decode(IndexOutOfRange))`.

`ExtractUsernameGuarded` is the decoder with the guard the code evidently intends. It is listed under
"## Findings" and is not used by `Parse` or `GetNodeUsername`, which keep the behaviour of the code.

## Model

| member | source | states |
|---|---|---|
| `Cluster.FindByAddress` | pkg/wiparser/wiparser.go:43-46 | The result names a node of the list that has the address among its status addresses; it is none exactly when no node of the list has the address. |
| `WiParser.ValidateAddress` | pkg/wiparser/wiparser.go:71-89 | An address is accepted exactly when it is an IPv4 literal, or it is not an IP literal and DNS resolves it to at least one address. The reason given for each rejection is stated in `AcceptedAddresses`; that an IP literal is judged without DNS is stated in `LiteralSkipsDns`. |
| `WiParser.AcceptedAddresses` | pkg/wiparser/wiparser.go:71-89 | An address is accepted exactly when it is an IPv4 literal, or it is not an IP literal and DNS resolves it to at least one address. An IPv6 literal is rejected as unsupported. A failed lookup gives a lookup error. An empty resolution gives a no-address error. |
| `WiParser.LiteralSkipsDns` | pkg/wiparser/wiparser.go:72-79 | For an IP literal the verdict depends only on its IP class: any two resolvers that agree on the class give the same result, whatever DNS would answer. |
| `WiParser.SplitN2` | pkg/wiparser/wiparser.go:107 | Splitting on the first `=` gives one or two parts, never zero. There is one part exactly when the input has no `=`, and then that part is the whole input. With two parts, the first has no `=`, and first + `=` + second is the input. |
| `WiParser.ExtractUsername` | pkg/wiparser/wiparser.go:106-112 | A successful decode returns the text after `username=`, and the payload is `"username="` followed by the returned name. The index-out-of-range panic happens only on the payload `"username"`. The full characterisation is in `ExtractUsernameInverse` and `ExtractUsernameCases`. |
| `WiParser.ExtractUsernameGuarded` | pkg/wiparser/wiparser.go:106-112 | The decoder with the guard the code evidently intends: it never panics, and a successful decode means the payload is `"username="` followed by the returned name. |
| `WiParser.GuardedDecoderAgrees` | pkg/wiparser/wiparser.go:108-111 | The guarded decoder rejects `"username"` with a format error and gives the same result as the decoder as written on every other input. |
| `WiParser.ExtractUsernameInverse` | pkg/wiparser/wiparser.go:105-111 | Decoding gives `Ok(name)` exactly when the payload is `"username=" + name`, for every name. So the value comes back untrimmed, may be empty and may contain `=`. |
| `WiParser.ExtractUsernameCases` | pkg/wiparser/wiparser.go:106-112 | Decoding succeeds exactly on a `username=` prefix. It panics (index out of range) exactly on the bare payload `"username"`. It gives a format error exactly when the text before the first `=` (all of the input when there is none) is not `username`. |
| `WiParser.DecoderRejectsExamples` | pkg/wiparser/wiparser.go:107-111 | `"user=alice"` and `""` give a format error; `"username"` gives the index-out-of-range panic. |
| `WiParser.Parse` | pkg/wiparser/wiparser.go:47-68 | A nil node list gives exactly the nil-nodes error, with nil instances. No error exactly when the node list is present and every key validates and every value decodes. Then there is one record per key, in visiting order. Each record has the key as address, the decoded username, `""`, `false` and `FindByAddress` of the key. There are as many records as map entries, and their addresses are the key set. An address error returns nil instances and names a key whose validation fails with that reason; every key visited before it validated and decoded. A decode error names a key that validated but failed to decode with that cause; every key visited before it validated and decoded. Its instances are the records for exactly those earlier keys, or nil when the cause is the panic. |
| `WiParser.SuccessCoversKeys` | pkg/wiparser/wiparser.go:51-67 | Records built one per key, over an order that visits each key once, are as many as the map's entries. Their addresses are exactly the map's keys and are pairwise distinct. |
| `WiParser.GetNodeUsername` | pkg/wiparser/wiparser.go:92-103 | A nil node gives the nil-node error. If none of the node's addresses is a key, the result is the no-matching-instance error with the node's name. Otherwise the result is the decoder's result, its error included, for the first listed address that is a key. Later addresses are not tried. |

## Findings

| source | as written | input that shows it | evidently intended | confidence | as-written member | corrected member |
|---|---|---|---|---|---|---|
| pkg/wiparser/wiparser.go:108 | the guard tests `len(splitData) == 0`, which `strings.SplitN(value, "=", 2)` never returns, so a payload without `=` whose text is `username` reaches `splitData[1]` at line 111 | `"username"`: a one-part split, then an index-out-of-range panic | a guard of `len(splitData) < 2`, so that the payload is rejected with the format error | high; not executed | `WiParser.DecoderRejectsExamples` | `WiParser.ExtractUsernameGuarded` |

`Parse` and `GetNodeUsername` use `ExtractUsername`, the decoder as written, so that they keep the
behaviour of the code. `GuardedDecoderAgrees` shows that the two decoders differ only on `"username"`.

## Left out

- `GetInstances` (pkg/wiparser/wiparser.go:22-41): fetching the ConfigMap and listing nodes are Kubernetes client calls (I/O), including the NotFound tolerance and the label selector.
- `InstanceConfigMap` (pkg/wiparser/wiparser.go:19): a configuration name with no logic.
- DNS resolution and IP literal parsing: replaced by the `Net` oracles. Go's IPv4/IPv6 text grammar is not modelled, and each lookup is taken to give one answer per address.
- `nodeutil.FindByAddress` and `instance.NewInfo` are not part of this model. `FindByAddress` is given a first-match body. Its contract states only what the doc comment of `Parse` promises, and the model uses only that contract. Its second result is discarded at line 64, so it is not modelled.
- Error message text and `errors.Wrapf` wrapping: errors are kinds that carry the address, the node name or the cause.
- Which key a failing `Parse` reports depends on the iteration order. With one bad address and one bad payload, either error kind may be returned. The contracts hold for every order but do not pick one.
