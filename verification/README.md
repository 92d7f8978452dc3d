# Verification of apprun-dedicated-provisioner

A Dafny 4.11 model of three parts of the repository, and proofs about them.

- **The JSON codec** of the generated API (`api/oas_json_gen.go`), at the level of jx tokens.
  `Schema.dfy` says once, for every shape of generated type, what `Encode` and `Decode`
  compute; `Laws.dfy`, `Members.dfy`, `RoundTrips.dfy` and `Decoded.dfy` prove the laws of the
  codec for every shape, value, receiver and input; and the classes of `HealthChecks.dfy`,
  `Versions.dfy`, `ReadVersions.dfy` and `AutoScaling.dfy` are the generated methods of three
  chains of types, with their key switches, required bits, array loops and nested calls,
  each proved to do what the schema says. `Payloads.dfy` and `Responses.dfy` put the laws to
  work on these types. What this comes to for each type is said without the schema, on JSON
  members and Go fields, in `WireVersions.dfy` and `WireResponses.dfy` (with `Wire.dfy`): which
  object is sent for a struct, and which field is read from which key.
  A Go struct is a value, so it is a datatype; a pointer receiver `*T` is an object of class
  `TRef` whose one variable is the struct its methods update. The bitset of required fields, a
  Go array and so a value, is a sequence of bytes. The key switch and `encodeFields` of the longer
  structs are split over several methods that call each other in turn. The token grammar is the value
  grammar of sections 2 to 5 of RFC 8259.
- **The request pipelines** of createApplicationVersion: body encoding and decoding
  (`Requests.dfy`), the server handler (`Servers.dfy`, `ServerLaws.dfy`, and in `Outcomes.dfy`
  what a run answers and records, on its inputs alone), the client call
  (`Clients.dfy`), and the way from the client's value to the application handler
  (`Deliveries.dfy`). A run is a trace of events with an explicit stack of deferred calls,
  driven by arbitrary results of authentication, decoding, middleware, handler, error handler,
  network and writes.
- **Plan and apply** for one application (`provisioner/sync.go`, `state/state.go`):
  `Configs.dfy`, `NormalForms.dfy`, `Planning.dfy`, `Provisioning.dfy`, `States.dfy`, with the service in
  `Services.dfy`; in `Normalizing.dfy` what a plan can see, in `Inheritance.dfy` what a new version
  takes from where, and in `Convergence.dfy` when planning after an apply finds nothing left to do.

`dafny verify dfyconfig.toml` checks everything.

## What turned out not to hold

- A repeated struct-valued member is decoded in place, so optional fields of an earlier
  occurrence survive in the last one (`WireResponses.NameServersStay`). When exactly the last
  of any number of occurrences decides alone: `Members.LastDecidesExactly`, `Payloads.RepeatedGroup`.
- The span of a server run is set to Error not only by `recordError` for a final code below 100
  or from 500 on: the error encoder also does it for 4xx (`ServerLaws.SpanStatus`). And the rule
  of the HTTP span conventions that the handler quotes, "left unset" for 1xx to 3xx, is not met
  by any answer of an encoder in these ranges, nor with its continuation for servers by an encoded
  4xx (`ServerLaws.QuotedRuleExactly`, `ServerLaws.ServerRuleExactly`). What counts here is which
  calls set the status; which of several wins is up to the SDK.
- The status on the counters is the last one written, the status on the wire the first; they
  part when a success could not be written or the error handler is untidy
  (`ServerLaws.WireExactly`). A 5xx the error handler writes for "not implemented" is on the
  requests counter but not on the errors counter (`ServerLaws.UncountedServerErrors`).
- README.md of the repository (lines 9 and 434-439) promises that settings left out of the YAML
  are inherited. They are, values of secrets included, but for two things: a secret takes the
  value of the last variable with its key, if the key is repeated, and a password that was given
  without a user name is dropped (`Inheritance.InheritsExactly` says exactly when,
  `Inheritance.RepeatedSecretNotInherited` and `Inheritance.LonePasswordNotInherited` are examples).
- The plan compares what is inherited as if it were to be removed: as soon as an optional setting
  that the comparison sees is inherited, every later plan reports a change and every later apply
  makes one more version that looks the same (`Convergence.ConvergesExactly`,
  `Convergence.ApplyRepeatedly`). Ports outside 16 bits and variables of one key that disagree,
  which the loader accepts, have the same effect (`Convergence.AcceptedSettles`). CPU, memory,
  scaling mode, image and ports can in fact not be left out, as the example of lines 541-548 of
  that README does: the loader rejects that (`Configs.NeverLeftOut`).
- An empty plan does not tell whether a variable is secret: after secret, plain and secret again
  with the same version, nothing is planned and the variable stays readable
  (`Normalizing.FlagsUnseen`, `Normalizing.SecretAgainUnseen`).
- The plan compares commands joined by spaces, so it misses a change that only moves a space
  between arguments, or adds one empty argument to none (`Normalizing.CommandSeen` says exactly
  which, `Normalizing.SplitArgumentUnseen` and `Normalizing.EmptyArgumentUnseen` are examples).

## Model

| member | source | states |
|---|---|---|
| `Json.ParseOfPrint` | api/oas_json_gen.go:1669-1670 | reading the tokens of one JSON value, with anything behind them, gives back that value and leaves exactly what is behind; so a value has one spelling and no spelling is a prefix of another |
| `Json.PrintOfParse` | api/oas_json_gen.go:1669-1670 | whatever one value is read from is exactly the spelling of that value: `Skip` and `Decode` consume balanced input only |
| `Jx.Decoder.Skip` | api/oas_json_gen.go:1670 | an unknown member's value is consumed exactly when one balanced value is there, and all of it; the end of input is told apart, which the trailing-data check relies on |
| `Jx.Decoder.NextKey` | api/oas_json_gen.go:1486-1487 | the object loop goes on at a key and ends at the closing brace, and everything else is an error |
| `Jx.NextMember` | api/oas_json_gen.go:1486-1671 | one round of the object loop keeps the loop invariant: the outcome still owed is that of the remaining members, and the bitset is exactly the set of required fields met so far |
| `Jx.Opening` | api/oas_json_gen.go:1481-1486 | what a struct decode owes at the opening brace, from a receiver to which the defaults have been applied |
| `Jx.Closing` | api/oas_json_gen.go:1673-1711 | at the closing brace the decode succeeds exactly when no required field is missing, else it reports them |
| `Jx.CheckRequired` | api/oas_json_gen.go:1676-1708 | the mask check errs exactly when a required field had no member, and names precisely those fields in table order |
| `Wrappers.ElemsNext` | api/oas_json_gen.go:1635-1645 | one round of the array loop: an element decoded into a fresh zero value is appended, or the whole decode fails |
| `Bits.TakeLowest` | api/oas_json_gen.go:1688-1705 | for a non-zero byte, the trailing-zeros index is the least set bit and resetting it leaves precisely the other set bits |
| `Bits.SelectExact` | api/oas_json_gen.go:1684-1706 | the indices the loop visits are exactly the set bits, strictly increasing |
| `RequiredFields.SetRequired` | api/oas_json_gen.go:1487-1512 | a switch case sets precisely the bit whose index is its field's place in the names table, across byte boundaries |
| `RequiredFields.FilledMember` | api/oas_json_gen.go:1486-1675 | after any members the bitset is exactly the required fields that occurred |
| `RequiredFields.MissingInByte` | api/oas_json_gen.go:1684-1706 | the popcount-bounded loop reports every set bit once, lowest first, and never takes the trailing zeros of zero |
| `RequiredFields.MissingFields` | api/oas_json_gen.go:7912-7945 | over any number of bytes the report is that of the required-and-unset bits of the whole bitset in order |
| `RequiredFields.ReportExact` | api/oas_json_gen.go:8276-8308 | for every bitset and mask the reported indices are exactly required-and-unset, strictly increasing, one name for each |
| `RequiredFields.ReportIsMissing` | api/oas_json_gen.go:1676-1708 | the reported names are those of the required fields no member filled, and the numeric fallback name is never reached |
| `Versions.CreateVersionMask` | api/oas_json_gen.go:1678-1681 | the two mask literals are exactly the required fields of the names table |
| `ReadVersions.ReadVersionMask` | api/oas_json_gen.go:7914-7918 | the three mask literals are exactly the required fields of the names table |
| `AutoScaling.AsgDetailMask` | api/oas_json_gen.go:8278-8281 | the two mask literals are exactly the required fields of the names table |
| `Kinds.CreateVersionTable` | api/oas_json_gen.go:1461-1477 | the names of the table differ and exactly its optional entries are `Opt*` or slices, at every depth |
| `Kinds.ReadVersionTable` | api/oas_json_gen.go:7671-7689 | the same for the 17 fields of the version detail |
| `Kinds.GetAsgTable` | api/oas_json_gen.go:4233-4235 | the same for the response with its nested structs |
| `HealthChecks.HealthCheckRef.SetDefaults` | api/oas_defaults_gen.go:6-15 | interval and timeout become 30 and 5, the path stays |
| `HealthChecks.HealthCheckRef.Encode` | api/oas_json_gen.go:4783-4803 | appends the tokens the schema prescribes for the struct |
| `HealthChecks.HealthCheckRef.Decode` | api/oas_json_gen.go:4812-4898 | reads a value, remaining tokens and error as the schema decoder says, for every receiver |
| `HealthChecks.DecodeNilHealthCheck` | api/oas_json_gen.go:6706-6726 | null gives the zero value, anything else is decoded in place into the payload that was there |
| `HealthChecks.EncodeNilHealthCheck` | api/oas_json_gen.go:6697-6703 | null or the struct |
| `Versions.ExposedPortRef.Encode` | api/oas_json_gen.go:3754-3788 | appends the tokens the schema prescribes, `host` only when the slice is not nil |
| `Versions.ExposedPortRef.Decode` | api/oas_json_gen.go:3799-3909 | as the schema decoder says, for every receiver and input |
| `Versions.CreateEnvironmentVariableRef.Encode` | api/oas_json_gen.go:2626-2648 | appends the tokens the schema prescribes, `value` only when set |
| `Versions.CreateEnvironmentVariableRef.Decode` | api/oas_json_gen.go:2657-2740 | as the schema decoder says, for every receiver and input |
| `Versions.CreateApplicationVersionRef.Encode` | api/oas_json_gen.go:1367-1459 | appends the tokens the schema prescribes for 15 fields, arrays of structs and wrappers; `WireVersions.VersionSent` says key by key which object that is |
| `Versions.CreateApplicationVersionRef.Decode` | api/oas_json_gen.go:1480-1711 | as the schema decoder says, for every receiver and input: order, unknown and repeated members, both bitset bytes, report; `WireVersions.VersionRead` says key by key which field gets what |
| `Versions.DecodeExposedPorts` | api/oas_json_gen.go:1633-1650 | each element of the array goes into a fresh struct |
| `ReadVersions.ReadEnvironmentVariableRef.Decode` | api/oas_json_gen.go:8898-8981 | as the schema decoder says |
| `ReadVersions.ReadApplicationVersionDetailRef.Encode` | api/oas_json_gen.go:7569-7669 | appends the tokens the schema prescribes for 17 fields |
| `ReadVersions.ReadApplicationVersionDetailRef.Decode` | api/oas_json_gen.go:7692-7948 | as the schema decoder says, with three bitset bytes |
| `AutoScaling.IpRangeRef.Decode` | api/oas_json_gen.go:4978-5047 | as the schema decoder says |
| `AutoScaling.AutoScalingGroupNodeInterfaceRef.Encode` | api/oas_json_gen.go:873-921 | appends the tokens the schema prescribes |
| `AutoScaling.AutoScalingGroupNodeInterfaceRef.Decode` | api/oas_json_gen.go:934-1066 | as the schema decoder says |
| `AutoScaling.ReadAutoScalingGroupDetailRef.Encode` | api/oas_json_gen.go:8058-8116 | appends the tokens the schema prescribes |
| `AutoScaling.ReadAutoScalingGroupDetailRef.Decode` | api/oas_json_gen.go:8132-8311 | as the schema decoder says |
| `AutoScaling.GetAutoScalingGroupResponseRef.Decode` | api/oas_json_gen.go:4238-4297 | as the schema decoder says: the nested struct is decoded in place |
| `Wrappers.DecodeOptInt32` | api/oas_json_gen.go:7178-7190 | a set value in range, or an error |
| `Wrappers.DecodeOptString` | api/oas_json_gen.go:7279-7290 | a set string, or an error |
| `Wrappers.DecodeNilString` | api/oas_json_gen.go:6840-6860 | null, or a string |
| `Wrappers.DecodeNilPort` | api/oas_json_gen.go:6796-6816 | null, or a port in range |
| `Wrappers.DecodeStrings` | api/oas_json_gen.go:1583-1602 | a fresh slice of the array's strings; an empty array gives an empty slice, not nil |
| `Jx.Decoder.Int` | api/oas_json_gen.go:1487-1498 | an integer in the range of its Go type is read and consumed, everything else is an error |
| `Jx.Decoder.Uuid` | api/oas_json_gen.go:840-857 | a UUID text in any of the forms google/uuid reads, in either case, is read as its canonical text |
| `Versions.CreateApplicationVersionRef.DecodeField` | api/oas_json_gen.go:1486-1671 | the whole key switch: only the field of the key changes, its required bit is set, an unknown key's value is skipped; which field a key has is in `WireVersions.VersionRead` |
| `Versions.ExposedPortRef.DecodeField` | api/oas_json_gen.go:3804-3871 | the same for its switch |
| `ReadVersions.ReadApplicationVersionDetailRef.DecodeField` | api/oas_json_gen.go:7698-7908 | the same, with bits in three bytes |
| `AutoScaling.ReadAutoScalingGroupDetailRef.DecodeField` | api/oas_json_gen.go:8138-8272 | the same for its switch |
| `AutoScaling.GetAutoScalingGroupResponseRef.DecodeField` | api/oas_json_gen.go:4244-4262 | the same, decoding into the struct that is there |
| `Versions.EncodeExposedPorts` | api/oas_json_gen.go:1443-1449 | the elements in order between brackets; a nil slice is sent as an empty array |
| `Versions.DecodeCreateEnvironmentVariables` | api/oas_json_gen.go:1651-1668 | each element of the array goes into a fresh struct |
| `AutoScaling.DecodeAutoScalingGroupNodeInterfaces` | api/oas_json_gen.go:8251-8268 | each element of the array goes into a fresh struct |
| `AutoScaling.DecodeIpRanges` | api/oas_json_gen.go:962-980 | each element of the array goes into a fresh struct |
| `AutoScaling.IpRangeRef.Encode` | api/oas_json_gen.go:4954-4970 | appends the tokens the schema prescribes |
| `AutoScaling.GetAutoScalingGroupResponseRef.Encode` | api/oas_json_gen.go:4219-4231 | appends the tokens the schema prescribes |
| `ReadVersions.ReadEnvironmentVariableRef.Encode` | api/oas_json_gen.go:8869-8889 | appends the tokens the schema prescribes |
| `Wrappers.DecodeOptInt16` | api/oas_json_gen.go:7143-7154 | a set value in range, or an error |
| `Wrappers.EncodeOptInt32` | api/oas_json_gen.go:7170-7175 | a set value, or nothing at all |
| `Wrappers.EncodeNilPort` | api/oas_json_gen.go:6787-6793 | null or the port |
| `Laws.FieldByField` | api/oas_json_gen.go:1486-1675 | the members of an object reach the fields independently: each field ends up as if only its own members had been there |
| `Laws.OrderIrrelevant` | api/oas_json_gen.go:1486-1675 | for distinct keys, success, decoded value and missing-field report are those of any permutation of the members |
| `Laws.OrderIrrelevantOnStreams` | api/oas_json_gen.go:3805-3874 | the same on token streams with anything behind the object |
| `Laws.SuccessIgnoresReceiver` | api/oas_json_gen.go:941-1027 | whether a decode succeeds never depends on what the receiver held |
| `Laws.SuccessExact` | api/oas_json_gen.go:1486-1681 | a struct decodes if and only if every member with a known key has a decodable value and every required key occurs |
| `Laws.ReceiverFrame` | api/oas_json_gen.go:8140-8271 | after a success an absent field is optional and keeps the receiver's value; a present one that overwrites is as in a fresh receiver |
| `Laws.OverwritesReceiver` | api/oas_json_gen.go:4812-4898 | a kind all of whose fields are required leaves nothing of the receiver |
| `Laws.PresetsUnseen` | api/oas_defaults_gen.go:6-15 | defaults on required fields change no outcome, whatever they are |
| `Members.UnknownInvisible` | api/oas_json_gen.go:1669-1670 | dropping every unknown member at every depth changes neither success, value nor report |
| `Members.GrowthInvisible` | api/oas_json_gen.go:3868-3869 | putting a member with an unrecognised key and any value in, at any position and any depth, changes nothing for any receiver |
| `Members.LastWins` | api/oas_json_gen.go:1522-1671 | with overwriting fields, repeats decode as their last occurrences alone, if the earlier ones decode |
| `Members.EarlierCanOnlyFail` | api/oas_json_gen.go:1522-1671 | repeats decode if and only if the last occurrences do and every dropped occurrence decodes |
| `Members.InPlaceSlot` | api/oas_json_gen.go:4244-4258 | in place, a field that occurs is as in a fresh receiver and the others stay |
| `Members.LastAloneExactly` | api/oas_json_gen.go:4244-4258 | an in-place decode equals a fresh one if and only if every field left out still was zero |
| `Members.LastDecidesExactly` | api/oas_json_gen.go:4244-4258 | of any number of occurrences decoded in place the last alone decides if and only if it has every field that any of them has |
| `RoundTrips.EncodePrints` | api/oas_json_gen.go:1387-1442 | the encoder appends exactly one balanced value, with exactly one value after each key |
| `RoundTrips.TreeKeys` | api/oas_json_gen.go:1374-1459 | it emits each key at most once, and exactly the keys of required, set and non-nil fields; so all that the decoder requires |
| `RoundTrips.RoundTrip` | api/oas_json_gen.go:1374-1711 | decoding what was encoded for any value of any well-formed type into a fresh receiver gives its normal form |
| `RoundTrips.StreamRoundTrip` | api/oas_json_gen.go:1374-1711 | the same on token streams: it consumes exactly that value, whatever follows |
| `RoundTrips.CanonicalOutput` | api/oas_json_gen.go:7170-7175 | a value and its normal form encode to the same tokens, so encode-decode-encode repeats the stream |
| `RoundTrips.NormCanonical` | api/oas_json_gen.go:880-921 | normalising twice is normalising once |
| `RoundTrips.UnchangedExactly` | api/oas_json_gen.go:6697-6726 | a value survives the round trip unchanged if and only if no sent slice is nil and nothing hides behind unset or null |
| `Decoded.DecodeCanonical` | api/oas_json_gen.go:1480-1711 | a decode keeps every field within its Go type, and from a tidy receiver gives a canonical value |
| `Decoded.DecodedSurvives` | api/oas_json_gen.go:1374-1711 | whatever JSON a value was decoded from, encoding it and decoding again gives the very same value |
| `Payloads.VersionNorm` | api/oas_json_gen.go:1374-1459 | the normal form of a `CreateApplicationVersion`, written out on the Go struct |
| `Payloads.SameVersions` | api/oas_json_gen.go:1461-1477 | the fifteen field values determine the struct |
| `Payloads.VersionLastWins` | api/oas_json_gen.go:1522-1671 | repeated keys in a `CreateApplicationVersion`: the last of each decides, an earlier one can only fail |
| `Payloads.RepeatedGroup` | api/oas_json_gen.go:4244-4258 | for every response object: keeping only the last occurrence of each key changes nothing if and only if there is no group, or the last one fails, or all decode and the last one has `nameServers` if any has |
| `Payloads.NameServersSurvive` | api/oas_json_gen.go:8174-8190 | for every pair of details the first with, the second without name servers: the result is the second with the name servers of the first |
| `Payloads.DefaultsUnseen` | api/oas_json_gen.go:4812-4898 | a decoded `HealthCheck` has interval and timeout from the input's last such members, for every receiver |
| `Payloads.AnyDefaultsUnseen` | api/oas_json_gen.go:6706-6726 | other defaults and another receiver give the same outcome; null stores zeros |
| `Wire.StructSent` | api/oas_json_gen.go:1374-1459 | the members an encoder sends are one for each field that is required, set or not nil, in the order of the fields |
| `Wire.StructExactly` | api/oas_json_gen.go:1486-1675 | a struct decodes to a given one if and only if each field does by what stands under its own key: required ones by something, absent ones by staying |
| `Wire.OnlyMissing` | api/oas_json_gen.go:1676-1708 | a decode reports missing fields if and only if there are some and nothing else is wrong: with the members of a complete object added it succeeds |
| `Wire.ObjectsInTurn` | api/oas_json_gen.go:4244-4258 | objects decoded into one receiver in turn: each is complete, and together they decode as one object with all their members |
| `WireVersions.HealthCheckSent` | api/oas_json_gen.go:4783-4803 | which object is sent: `path`, `intervalSeconds`, `timeoutSeconds`, each with that field of the struct |
| `WireVersions.HealthCheckRead` | api/oas_json_gen.go:4812-4898 | which field of the struct each key decides, for every object and receiver; so the defaults of interval and timeout are never seen |
| `WireVersions.PortSent` | api/oas_json_gen.go:3754-3788 | the same for a port: `host` only for a slice, `loadBalancerPort` and `healthCheck` possibly null |
| `WireVersions.PortRead` | api/oas_json_gen.go:3799-3909 | which field each key decides, the nested health check included |
| `WireVersions.VariableSent` | api/oas_json_gen.go:2626-2648 | the same for a variable: `value` only when set |
| `WireVersions.VariableRead` | api/oas_json_gen.go:2657-2740 | which field each key decides, `value` staying when it is absent |
| `WireVersions.VersionSent` | api/oas_json_gen.go:1367-1459 | the object sent for a version, written out: `cpu` is its CPU, `memory` its memory, and so on through all fifteen keys, the guarded ones when set or not nil, ports and variables in order |
| `WireVersions.VersionRead` | api/oas_json_gen.go:1480-1711 | for every object and receiver, the result is `now` if and only if each of the fifteen fields of `now` is what the last value under its key says (all of them in range), and an optional field without one is the receiver's |
| `WireVersions.VersionMissing` | api/oas_json_gen.go:1461-1477 | what is reported as missing: the required keys, named one by one, under which nothing stands |
| `WireVersions.VersionLacks` | api/oas_json_gen.go:1676-1708 | missing keys are reported if and only if nothing else is wrong with the object |
| `WireVersions.VersionOnStream` | api/oas_json_gen.go:1480-1711 | the same on token streams, for the receiver, the tokens and what is left of them |
| `WireVersions.SendVersion` | api/oas_json_gen.go:1367-1711 | encode, anything behind, decode into a fresh struct: what is sent is the object written out, exactly its tokens are consumed, and the struct is `NormVersion(v)` |
| `WireResponses.ShownVariableSent` | api/oas_json_gen.go:8869-8889 | the object sent for a variable that is shown |
| `WireResponses.ShownVariableRead` | api/oas_json_gen.go:8898-8981 | which field each key decides |
| `WireResponses.DetailSent` | api/oas_json_gen.go:7569-7669 | the object sent for a version detail, all seventeen keys |
| `WireResponses.DetailRead` | api/oas_json_gen.go:7692-7948 | which of the seventeen fields each key decides, for every object and receiver |
| `WireResponses.DetailMissing` | api/oas_json_gen.go:7671-7689 | what is reported as missing of a version detail |
| `WireResponses.DetailOnStream` | api/oas_json_gen.go:7692-7948 | the same on token streams |
| `WireResponses.SendDetail` | api/oas_json_gen.go:7569-7948 | round trip of a version detail: the object written out, exactly its tokens, and the normal form, written out |
| `WireResponses.RangeSent` | api/oas_json_gen.go:4954-4970 | the object sent for an address range |
| `WireResponses.RangeRead` | api/oas_json_gen.go:4978-5047 | which field each key decides |
| `WireResponses.InterfaceSent` | api/oas_json_gen.go:873-921 | the object sent for a node interface: guards for the pool, the netmask, the gateway and the packet filter |
| `WireResponses.InterfaceRead` | api/oas_json_gen.go:934-1066 | which field each key decides, address ranges included |
| `WireResponses.GroupSent` | api/oas_json_gen.go:8058-8116 | the object sent for an auto scaling group |
| `WireResponses.GroupRead` | api/oas_json_gen.go:8132-8311 | which field each key decides, for every object and receiver |
| `WireResponses.GroupMissing` | api/oas_json_gen.go:8278-8308 | what is reported as missing of a group |
| `WireResponses.ResponseSent` | api/oas_json_gen.go:4219-4231 | the response with the group in it |
| `WireResponses.ResponseRead` | api/oas_json_gen.go:4238-4297 | for every object and receiver: the groups are decoded into the struct that is there, each complete, as if all their members stood in one object |
| `WireResponses.ResponseOnStream` | api/oas_json_gen.go:4238-4297 | the same on token streams |
| `WireResponses.SendResponse` | api/oas_json_gen.go:4219-4297 | round trip of the response: the object written out, exactly its tokens, and its normal form, through three levels of nested structs |
| `WireResponses.NameServersStay` | api/oas_json_gen.go:8174-8190 | on the Go structs: two groups in one response, the second without name servers, leave the second with the name servers of the first |
| `Schema.ReadKeepsDigits` | api/oas_json_gen.go:840-857 | each of the 32 digits of a UUID that is read has the value of the digit at its place in the text, in all four forms |
| `Responses.DetailNorm` | api/oas_json_gen.go:7576-7669 | the normal form of the version detail, written out on the Go struct |
| `Responses.GroupNorm` | api/oas_json_gen.go:8065-8116 | the normal form of the group detail, written out on the Go struct |
| `Closers.Close` | api/oas_request_decoders_gen.go:102-110 | the reverse fold of closers fails if and only if one of them fails; so never on the empty list |
| `Requests.EncodeRequest` | api/oas_request_encoders_gen.go:27-39 | the content type is `application/json`, and the body is the object written out by `VersionJson` and nothing else |
| `Requests.DecodeRequest` | api/oas_request_decoders_gen.go:96-175 | one if-and-only-if for the request and for each error, in the order of the checks, all on the tokens and the struct: media type, `application/json`, presence, reading, missing keys by name, other decoding errors, trailing data, validation; `closers` stays empty |
| `Requests.Exchange` | api/oas_request_decoders_gen.go:137-169 | the server gets `NormVersion(v)` if and only if that validates; with any token behind the object the body is rejected as trailing data |
| `Outcomes.AnswersExactly` | api/oas_handlers_gen.go:306-445 | what a run does to the response, on its inputs: without authentication one header with the code of `NewError`, a zero code being 200; for parameters, body or "not implemented" the error handler's own actions; for an error of the handler its code or that of `NewError`; 200 for a success, and the error handler's actions after a write that failed otherwise than internally |
| `Outcomes.RecordsExactly` | api/oas_handlers_gen.go:306-445 | which error is recorded, on its inputs: the stage of each failure by name, and for encoded answers if and only if the write fails or the code is 500 or more |
| `Outcomes.StatusExactly` | api/oas_handlers_gen.go:22-30 | the status the counters see, on the inputs: the code of the encoder, or the last one the error handler reports, or 0 if it reports none |
| `Outcomes.CountersExactly` | api/oas_handlers_gen.go:249-301 | the counters get the status written last, and one error for each record |
| `Outcomes.DeferredExactly` | api/oas_handlers_gen.go:253-445 | which calls a run defers, on its inputs: the request is closed if and only if it decoded, and the error record, if there is one, is the last |
| `Outcomes.StepsExactly` | api/oas_handlers_gen.go:306-375 | gate, parameters and body: which of these steps a run reaches, on its inputs |
| `Security.MaskExact` | api/oas_handlers_gen.go:335-338 | the mask test is inclusion of bit sets |
| `Security.CheckRequirements` | api/oas_handlers_gen.go:330-343 | the labelled loop is true if and only if some requirement's bits are all satisfied, for every list |
| `Servers.Run.EncodeErrorResponse` | api/oas_response_encoders_gen.go:435-460 | the events of an error response, and failure exactly when the write fails or the code is 500 or more |
| `Servers.Run.EncodeResponse` | api/oas_response_encoders_gen.go:29-41 | the events of a success response, and failure exactly when the write fails |
| `Servers.Run.WriteHeader` | api/oas_handlers_gen.go:22-30 | the recorder keeps the last status |
| `Servers.Run.Serve` | api/oas_handlers_gen.go:253-445 | the body of the handler: its events and the deferred calls it leaves, for every input and every return |
| `Servers.Run.Unwind` | api/oas_handlers_gen.go:259-279 | the deferred calls run last in, first out, on an unchanged status |
| `Servers.Handle` | api/oas_handlers_gen.go:239-445 | one run: its whole trace and what it adds to the three counters |
| `ServerLaws.HandlerGated` | api/oas_handlers_gen.go:306-420 | every entry to the application handler comes after the passed security gate, the decoded parameters and the decoded body, in that order |
| `ServerLaws.EnteredOnce` | api/oas_handlers_gen.go:386-420 | it is entered at most once unless a middleware calls `next` more often, and without one with the decoded body |
| `ServerLaws.AccountedLast` | api/oas_handlers_gen.go:259-301 | requests, duration and span end are the last events of every run, once each; an error record is just before them and at most one; all carry the last status written, and nothing touches the response after them |
| `ServerLaws.CountedExactly` | api/oas_handlers_gen.go:354-381 | the errors counter is bumped exactly in the runs with a recorded failure |
| `ServerLaws.UncountedServerErrors` | api/oas_handlers_gen.go:428-431 | a final status of 500 or more goes uncounted if and only if the handler said "not implemented" and the error handler wrote it |
| `ServerLaws.SpanStatus` | api/oas_handlers_gen.go:281-301 | the span is set to Error if and only if `recordError` saw a final code below 100 or from 500 on, or the error encoder answered 4xx, in which case `recordError` saw no such code |
| `ServerLaws.QuotedRuleExactly` | api/oas_handlers_gen.go:285-288 | the rule quoted there for 1xx to 3xx is met if and only if the final code is outside them or the error handler wrote it for "not implemented" |
| `ServerLaws.ServerRuleExactly` | api/oas_handlers_gen.go:284-292 | for servers that rule goes on: 4xx unset, 5xx Error; met if and only if a 4xx comes from the error handler and a 5xx is recorded as an error |
| `ServerLaws.UnsetExactly` | api/oas_handlers_gen.go:281-301 | no call sets the status if and only if the error handler answered and no recorded error has a code below 100 or from 500 on |
| `ServerLaws.SuccessBreaksRule` | api/oas_response_encoders_gen.go:29-32 | an example: a plain success sets Ok where the quoted rule wants the status unset |
| `ServerLaws.NotFoundFailsSpan` | api/oas_response_encoders_gen.go:445-450 | an example: a 404 of the application handler sets the span to Error though no error is recorded |
| `ServerLaws.NotImplementedUncounted` | api/oas_handlers_gen.go:428-431 | an example: a 501 from the error handler that the errors counter does not see |
| `ServerLaws.FailedWriteReportsOther` | api/oas_handlers_gen.go:438-443 | an example: the counters report 500 where the client got 200 |
| `ServerLaws.WireExactly` | api/oas_handlers_gen.go:22-30 | the recorded status is the one the client gets if and only if an encoder answered, or the error handler alone did and ended with the status it began with, or after a failed write the last status it reported, if any, is 200 |
| `ServerLaws.HandleAll` | api/oas_handlers_gen.go:249-279 | any sequence of runs on one server: the counters hold exactly the runs' final codes |
| `ServerLaws.Conservation` | api/oas_handlers_gen.go:249-301 | one request and one duration for each run, and for every status code no more errors than requests |
| `ServerLaws.ClosersMatter` | api/oas_handlers_gen.go:376-380 | the deferred calls of an admitted run count more errors than requests if and only if a closer fails and the run also recorded a failure; the request decoder has no closers |
| `Deliveries.Deliver` | api/oas_handlers_gen.go:366-420 | from the client's value to the application handler: it is entered if and only if authentication, parameters, validation and an exact body let it, with `NormVersion(v)` or with what a middleware passes on; every run let in by authentication that does not get so far bumps the errors counter |
| `Servers.Run.Secure` | api/oas_handlers_gen.go:306-352 | events and deferred calls of authentication and gate; it goes on exactly when the requirement is satisfied |
| `Servers.Run.DecodeInputs` | api/oas_handlers_gen.go:354-375 | events and deferred calls of decoding parameters and body; it goes on exactly when both decode |
| `Servers.Run.CallHandler` | api/oas_handlers_gen.go:382-420 | one entry of the application handler for each call of `next`, or one without middleware |
| `Servers.Run.Respond` | api/oas_handlers_gen.go:421-445 | the response to every result of the handler, with the deferred error record where one is due |
| `Servers.Run.RecordNow` | api/oas_handlers_gen.go:282-301 | one more error with the final status, and whether the span is set to Error |
| `Clients.Call.Authenticate` | api/oas_client_gen.go:492-523 | it goes on exactly when the requirement is satisfied; skipping leaves it open |
| `Clients.Call.Exchange` | api/oas_client_gen.go:525-538 | sending and decoding, with the body closed once one is there |
| `Clients.Call.Unwind` | api/oas_client_gen.go:428-453 | the deferred calls run last in, first out |
| `Clients.Call.Send` | api/oas_client_gen.go:420-538 | the body of the call: its events, error and deferred calls for every outcome |
| `Clients.SendRequest` | api/oas_client_gen.go:420-539 | one call: it returns an error if and only if the path does not encode, the request is not built, authentication does not succeed, there is no response or it does not decode; its whole trace; errors grows exactly when it returns one |
| `Clients.CallExactly` | api/oas_client_gen.go:455-538 | the stage an error is recorded with, for each first step that fails; sending and closing the body, on the inputs |
| `Clients.CallConserves` | api/oas_client_gen.go:428-453 | one request, one duration last, one span end; the body is closed exactly when a response was obtained, once and after it; an error is recorded exactly when the call returns one |
| `Clients.SentOnlyWhenSecured` | api/oas_client_gen.go:492-530 | nothing is sent unless the security requirement is satisfied, and only in the sending phase |
| `Clients.ErrorNamesLastStage` | api/oas_client_gen.go:444-453 | the stage on an error is the last phase entered |
| `Clients.SendAll` | api/oas_client_gen.go:428-453 | over any sequence of calls, requests and durations count the calls and errors those that failed |
| `States.State.SetPasswordVersion` | state/state.go:91-95 | only that application's password version changes, and no empty entry is left |
| `States.State.SetSecretEnvVersion` | state/state.go:108-121 | only that application's version of that key changes, and no empty entry is left |
| `Provisioning.BuildRequest` | provisioner/sync.go:720-880 | each setting is the config's where it specifies one and the base version's where it does not; for the credentials one if-and-only-if each for "new", "keep" and "remove" and for a null user name and a null password |
| `Provisioning.SettingsExactly` | provisioner/sync.go:724-758 | sizes, scaling, image and command of the request, one by one, on the config and the base version |
| `Provisioning.PortsExactly` | provisioner/sync.go:813-849 | the ports of the request, field by field, on the config and the base version |
| `Provisioning.EnvExactly` | provisioner/sync.go:851-877 | the variables of the request, field by field, on the config and the base version |
| `Provisioning.Credentials` | provisioner/sync.go:760-780 | user name, password and the action on the password, for every mix of config and base version |
| `Provisioning.BuildPorts` | provisioner/sync.go:813-849 | the config's ports if it has any, else the base version's, in order |
| `Provisioning.BuildEnv` | provisioner/sync.go:851-877 | the config's variables if it has any, else the base version's with the values of secrets left out |
| `Planning.CompareEnv` | provisioner/sync.go:451-519 | the changes of the environment: by key, last one counting; secrets by recorded version, others by value |
| `Planning.Plan` | provisioner/sync.go:402-408 | one if-and-only-if for each kind of change, on the version, the config and the record: a setting by its name, a target port by the fields of the last port with it, a variable to add, to update (by value or recorded version) and to remove, the password version |
| `Planning.CompareVersion` | provisioner/sync.go:413-448 | all changes against the latest version and the state file, through both normal forms and their comparison |
| `Provisioning.UpdateSecretEnvVersions` | provisioner/sync.go:522-534 | the recorded versions are the config's last ones over the old ones; it says that it changed something if and only if some version was new when its turn came |
| `Services.Service.CreateApplicationVersion` | api/oas_schemas_gen.go:873-880 | a request makes one more version; a secret sent without a value has the value of the version before, and the password action is followed |
| `Services.Service.GetLatestVersion` | provisioner/sync.go:595-627 | the latest version as the API shows it, without password and values of secrets |
| `Provisioning.ShownIsKept` | api/oas_schemas_gen.go:3323-3329 | what is shown of a new version is what was sent, field by field, but for passwords and secrets, whatever the version before was |
| `Provisioning.ApplyUpdate` | provisioner/sync.go:345-378 | one more version, stored from the config and what is shown of the latest one; the new record; other applications keep theirs; the state is saved if and only if the password version differs or a secret version is new, and an unsaved one is unchanged |
| `Provisioning.ApplyCreate` | provisioner/sync.go:332-344 | the same for a creation, with a first version and a leftover password version kept |
| `Convergence.RecordedAt` | provisioner/sync.go:522-534 | the recorded version of every key: the last one the config brings for it as a secret, else the old one |
| `Convergence.ConvergesExactly` | provisioner/sync.go:413-448 | the plan right after an update is empty if and only if the config leaves open no setting the version before had, its ports fit 16 bits, and variables of one key agree |
| `Convergence.AppliedTwice` | provisioner/sync.go:675-712 | a second update makes the same version and record as the first |
| `Convergence.ApplyRepeatedly` | provisioner/sync.go:345-378 | after any number of updates the plan is empty if and only if it was after the first: what does not settle at once never does |
| `Convergence.CreationConvergesExactly` | provisioner/sync.go:332-344 | the same after a creation, where a leftover password version must be absent or replaced |
| `Configs.ValidateApplication` | config/loader.go:59-106 | every check of the loader, each bound and required combination: true if and only if none fails |
| `Configs.NeverLeftOut` | config/loader.go:64-83 | CPU, memory, scaling mode, image and ports cannot be left out |
| `Convergence.AcceptedSettles` | config/loader.go:59-106 | for every config the loader accepts, the plan after an update is empty if and only if no optional setting that the comparison sees is inherited, the ports fit 16 bits, and variables of one key agree |
| `Convergence.DistinctAgree` | provisioner/sync.go:471-505 | variables with different keys agree |
| `Inheritance.InheritsExactly` | provisioner/sync.go:720-880 | every setting the config leaves open is stored as in the version before, values of secrets and the password included, if and only if secrets of one key agree and a password there is goes with a user name (and no null user name hides a value) |
| `Inheritance.VariablesInherited` | provisioner/sync.go:860-877 | variables shown, sent again and stored after themselves are unchanged if and only if each secret has the value of the last variable with its key |
| `Inheritance.DistinctInherited` | provisioner/sync.go:860-877 | so variables with different keys are inherited whatever they are |
| `Inheritance.RepeatedSecretNotInherited` | provisioner/sync.go:860-877 | an example: of two secrets with one key the first comes out with the value of the second |
| `Inheritance.LonePasswordNotInherited` | provisioner/sync.go:760-780 | an example: a password that was given without a user name is gone after an update that leaves both out |
| `Inheritance.StoredTwiceExactly` | provisioner/sync.go:675-712 | a second update stores the same version if and only if secrets without a value keep it and no password is dropped for an empty user name |
| `Inheritance.SpecifiedExactly` | provisioner/sync.go:720-880 | every setting the config specifies is what the new version stores: settings, the password, the ports cut to 16 bits (unchanged if and only if they fit), and the variables in order, a secret without a value having the one before |
| `Normalizing.EnvSeenExactly` | provisioner/sync.go:451-519 | nothing is planned for the environment if and only if the keys are the same, plain values are equal as shown, and the recorded versions of secrets are the config's |
| `Normalizing.FlagsUnseen` | provisioner/sync.go:451-519 | with an empty plan, the version lacks the config's variables if and only if one became secret or ceased to be: with a version on record, or with an empty value |
| `Normalizing.SecretAgainUnseen` | provisioner/sync.go:522-534 | an example: secret, then plain, then to be secret again; the old record makes the plan empty and the variable stays readable |
| `NormalForms.NormalizeFromAPI` | provisioner/normalized.go:45-102 | the normal form of a version: unset is nil, null is empty, hosts sorted and joined, ports sorted |
| `NormalForms.NormalizeFromConfig` | provisioner/normalized.go:105-148 | the normal form of a config |
| `NormalForms.CompareSpecs` | provisioner/normalized.go:164-180 | everything in the changelog, in order, but for the image on demand; the changelog is the stand-in for the diff library |
| `NormalForms.DiffExactly` | provisioner/normalized.go:20-42 | of the stand-in for the diff library: it names a setting if and only if that differs, and a target port if and only if what is found there differs |
| `NormalForms.NothingReported` | provisioner/normalized.go:164-180 | nothing is reported if and only if all settings, but a skipped image, are equal and the ports agree at every target port |
| `NormalForms.AgreeSorted` | provisioner/normalized.go:151-155 | sorting the ports, equal targets kept in order, changes nothing about whether they agree |
| `Normalizing.SortOrders` | provisioner/normalized.go:84-88 | sorted names are in lexicographic order, and the same ones |
| `Normalizing.SortForgetsOrder` | provisioner/normalized.go:84-88 | sorted host lists are equal for lists that differ in order only |
| `Normalizing.HostsSeen` | provisioner/normalized.go:84-88 | two host lists compare equal if and only if, sorted and cut at every comma, they are equal |
| `Normalizing.PlainHostsSeen` | provisioner/normalized.go:84-88 | host names without commas compare as a bag of names, no names counting as one empty name |
| `Normalizing.JoinsExactly` | provisioner/normalized.go:45-52 | joined strings are equal if and only if the pieces between the separators are |
| `Normalizing.CommandSeen` | provisioner/normalized.go:45-52 | a plan names the command if and only if the commands differ once every argument is cut at its spaces, no arguments counting as one empty one |
| `Normalizing.PlainCommandSeen` | provisioner/normalized.go:45-52 | for arguments without spaces: if and only if they differ, no arguments counting as one empty one |
| `Normalizing.EmptyArgumentUnseen` | provisioner/normalized.go:105-118 | an example: no command against one empty argument |
| `Normalizing.SplitArgumentUnseen` | provisioner/normalized.go:45-52 | an example where they differ and nothing is planned: one argument against the same text as two |
| `Convergence.InheritedCommand` | provisioner/normalized.go:105-118 | an inherited command: it is kept, and every later plan wants it removed |

## Left out

- Jx.Decoder.Skip: jx bounds the nesting depth of what it reads; the model does not, and it has tokens for text.
- Jx.Decoder.Uuid: the four forms are those of google/uuid 1.6.0, whose code is not part of this model; a character stands for a byte.
- Versions.CreateApplicationVersionRef.Decode: what the receiver holds after an error is not specified, and of an error only whether it is the report of this struct's missing fields or another one; the same for the other decoders.
- Versions.CreateApplicationVersionRef.Encode: the nil-receiver and `MarshalJSON` paths are not modelled; the same for the other encoders.
- Lexing, escaping, separators and number syntax of JSON text: a token stands for its text.
- The switch of `ScalingMode.Decode` and `RegistryPasswordAction.Decode`, which stores the string it read in every case; these and `IPv4`, `Port`, `ApplicationVersionNumber` and `AutoScalingGroupID` are the scalars they alias.
- The remaining generated types and operations, which repeat the templates of the modelled ones; path and query parameters; the router; the other response encoders and all response decoders.
- `Validate` is an arbitrary predicate, and the standard library, jx, mime and net/http are known only by what is said of them here.
- Requests.DecodeRequest: closing and replacing `r.Body` is not an event of the model; the raw body is.
- Requests.Exchange: the transport is assumed to deliver the body unchanged and to announce a length other than zero for it.
- Servers.Handle: contexts, attributes other than the status code, elapsed times and panics are not modelled; of OpenTelemetry only which calls are made, with which status. A middleware calls `next` any number of times with any requests and returns anything, but does not write to the response.
- Servers.Run.Serve: the body decoder's result is an input of the run; `Deliveries.Deliver` supplies it from the actual decoder.
- ServerLaws.WireExactly: informational statuses, which net/http sends ahead of the final one, count as final here.
- Clients.SendRequest: the URL, the request and the response are events; `decodeCreateApplicationVersionResponse` is an arbitrary result.
- Clients.Call.Send: the encoder of the request never fails and has no event of its own.
- Services.Service.CreateApplicationVersion: the service's code is not part of this model; it is taken to do what the API documents (a secret without a value has the previous version's, values of secrets are not shown). Of equal keys the last one's value is taken, and an action "new" without a password is taken to leave none; neither is documented. The test server (testutil/mock_server.go:260-308) shows secrets and takes over no values; the lemmas of `Convergence.dfy` hold of what it shows too (`masks` false), those of `Inheritance.dfy` and the methods do not speak of it.
- Provisioning.ApplyUpdate: service errors, activation, clusters, load balancers and auto scaling groups are not modelled, nor writing the state file itself.
- Planning.Plan: the texts of the changes are not modelled, only which there are. The diff library's code is not part of this model: it is taken to match ports by target port with the last of equal ones counting, to compare a port that is new or gone with the zero port, and to say no more than which settings and ports differ. Ports with equal targets are taken to stay in order when sorted. `getLatestVersion` reads the first 30 versions only; here the latest version is given.
- YAML and the reading of the state file.
