# tongsuo-go: a verified model

This project models the parts of tongsuo-go that are algorithms and state machines of its own,
rather than calls into the native library, and proves what they promise. The model has the form of
the code: pure decisions are functions, loops are methods with invariants proved against a
specification function, objects that change are classes, and the handshake, which several
goroutines race on, is a step machine whose invariant holds in every interleaving.

| file | models |
|---|---|
| `Octets`, `Oids`, `Der`, `DisplayText`, `CertPolicies` | the certificatePolicies extension (section 4.2.1.4 of RFC 5280) over DER, as specification functions and their laws |
| `OidCodec`, `PolicyCodec` | the printer and parser of that extension as the loops, the cursor and the policy record they are, proved equal to those functions |
| `Asn1Grammar`, `Asn1Parsers` | the recursive and the explicit-stack DER tree parsers, on heap nodes, against one grammar |
| `AsnShapes`, `Signatures`, `Sm2Ciphertexts` | conversion of signatures and SM2 ciphertexts between raw and DER forms |
| `MacStream` | the MAC object that replays a buffer where the native context cannot be duplicated |
| `TlsHandshake` | one connection under any interleaving of handshakes, reads, writes, cancellations and Close |
| `TlsProgress` | why every call on such a connection ends |
| `TlsConn` | the connection object as one goroutine uses it: captured state as deep copies, handshake, I/O, Close |
| `TlsBlock` | the sequential handshake block and the block of the step machine: the same answers in the same order, and the same outcome |
| `TlsConfig`, `TlsChain` | validation and selection of configurations; rebuilding the peer chain |
| `Encodings`, `Sink` | hexadecimal and base64 (sections 8 and 4 of RFC 4648) and the streaming output sink |
| `KeyStore` | the rotating key store |
| `Results` | results and options |

Conventions. A Go `int` is 64 bits wide and wrap-around is written out where it can happen. An
error return is `Err` or an error value; texts of errors are not modelled. A nil and an empty slice
are the same unless a contract tells them apart. Calls into the native library are methods that
may fail or answer anything their documentation allows, or parameters.

Where the code and its comments disagree, the model follows the code:

- `tls/chain.go:46-50` says that AKI and SKI must be equal, when both are there, before a text match
  is accepted. `tls/chain.go:99-107` accepts it regardless (`TlsChain.LinkDespiteKeys`; exactly when is
  in `TlsChain.SearchMayDiffer` for one search and `TlsChain.ChainMayDiffer` for a chain).
- The duplicate check at `x509/certpol_der.go:80-83` compares texts as they are given, so two
  spellings of one OID pass (`CertPolicies.DuplicateOidSlipsThrough`, with the exact condition in
  `CertPolicies.EncodedOidsDistinct`).
- `asym/signature.go:51-57` promises to reject any structure other than two integers. Octets behind
  the second integer inside the SEQUENCE are accepted, and nothing else is
  (`Signatures.InnerOctetIsAccepted`; `Signatures.ParseAccepts` says what is accepted for every input
  and `Signatures.AcceptedBeyondPairs` when it is more than two integers).
- `tls/tls.go:355-359` says that a client verifies only when its roots are not empty. One that names
  its server verifies without them (`TlsConfig.VerifiesWithoutRoots`, with the exact condition in
  `TlsConfig.ClientPolicy`).

Three things the code does that its callers may not expect:

- `asym/sm2.go:244-271` checks neither the length of the hash nor what follows the fields or the
  SEQUENCE, and a negative coordinate counts by its absolute value. `Sm2Ciphertexts.ParseDerAccepts`
  says for every input whether it is accepted, `Sm2Ciphertexts.DerRawDer` for every accepted one
  exactly when nothing is lost; `ShortHashIsLost`, `SignIsLost`, `TrailingOctetIsLost` and
  `InnerOctetIsLost` are inputs that do lose something.
- A signature with a zero component is taken from DER and refused from raw
  (`Signatures.ZeroIsAccepted`). `Signatures.DerRawDer` says exactly when an accepted DER comes back.
- Completion, which `tls/state.go:54-57` describes as true only after protocol and custom
  verification succeed, is published before the last look at the context, and that look can take it
  back (`TlsHandshake.WithdrawalHappens`). `TlsHandshake.CompletionStays` says exactly when it stays,
  and `TlsHandshake.SeenCompletion` does so for a completion seen at any other moment.

## Model

| member | source | states |
|---|---|---|
| `Octets.IntegerIsShortest` | x509/certpol_der.go:193-227 | the content octets chosen for an integer are in the shortest form of section 8.3.2 of X.690 |
| `Octets.ShortestIsInteger` | x509/certpol_der.go:193-227 | a shortest form is determined by its value: it is the one the printer gives |
| `Octets.IntegerOctetsLeast` | x509/certpol_der.go:193-227 | no other octets with the same two's complement value are fewer |
| `Octets.Int64Octets` | x509/certpol_der.go:193-227 | every 64-bit integer takes one to eight content octets, and an octet string of that length has a 64-bit value |
| `Octets.SignedOfInteger` | x509/certpol_der.go:667-689 | reading the two's complement value undoes the choice of octets, for every integer |
| `OidCodec.EncodeInteger` | x509/certpol_der.go:193-227 | the loops over a positive and a negative 64-bit number produce the shortest form |
| `OidCodec.DecodeInteger` | x509/certpol_der.go:667-689 | the accumulate-and-sign-extend loop on any one to eight octets gives their two's complement value; other lengths fail |
| `Oids.ReadBase128Exact` | x509/certpol_der.go:733-745 | reading succeeds exactly when a terminated group sequence with a value below 2^64 is in front, and then gives that value and its length |
| `Oids.ReadBase128OfBase128` | x509/certpol_der.go:281-294 | reading what was printed gives the number back for every 64-bit value, whatever follows |
| `OidCodec.Base128` | x509/certpol_der.go:281-294 | the loop that prepends groups gives the base-128 form |
| `OidCodec.ReadBase128` | x509/certpol_der.go:733-745 | the shifting loop with its 2^57 guard equals the specification |
| `Oids.DecimalOfValue` | x509/certpol_der.go:250-262 | reading a digit string and printing it keeps it exactly when it has no leading zero |
| `Oids.OidRoundTrip` | x509/certpol_der.go:240-274 | decoding the octets of any accepted OID text gives its canonical dotted form, which encodes to the same octets and is canonical itself |
| `Oids.OidInjective` | x509/certpol_der.go:240-274 | two accepted texts have the same octets if and only if they have the same canonical form |
| `Oids.CanonicalText` | x509/certpol_der.go:240-274 | an accepted text is canonical if and only if it has no surrounding white space and no leading zero in an arc |
| `Oids.DecodedIsCanonical` | x509/certpol_der.go:695-727 | a decoded text that the encoder takes is canonical |
| `Oids.Base128OfReading` | x509/certpol_der.go:733-745 | what was read is printed in no more octets, in the very same ones if and only if the first is not padding |
| `Oids.OctetsRoundTrip` | x509/certpol_der.go:695-727 | arbitrary octets are decoded to a text that encodes to them again if and only if they are well formed, their arcs are in range and no subidentifier is padded |
| `OidCodec.EncodeOid` | x509/certpol_der.go:240-274 | the splitting and appending loops equal the specification, errors included |
| `OidCodec.DecodeOid` | x509/certpol_der.go:695-727 | the reading loop equals the specification; malformed content gives the empty text |
| `Der.ReadTlv` | x509/certpol_der.go:315-321 | an element with content below 2^32 octets is read back, with any octets behind it |
| `Der.ReadLongTlv` | x509/certpol_der.go:369-405 | longer content is refused: the reader takes at most four length octets |
| `PolicyCodec.LengthOctets` | x509/certpol_der.go:299-310 | the loop gives the shortest length octets |
| `PolicyCodec.PrintTlv` | x509/certpol_der.go:315-321 | what is printed is one element that reads back as its tag and content, for content below 2^32 octets |
| `PolicyCodec.DerCursor.Read` | x509/certpol_der.go:369-405 | reads the element in front of the cursor and leaves the cursor right behind it; fails exactly where the specification does |
| `PolicyCodec.DerCursor.ReadLength` | x509/certpol_der.go:381-399 | the loop over the long-form length octets |
| `CertPolicies.EncodeAccepts` | x509/certpol_der.go:73-96 | the printer accepts a list if and only if it is nonempty, every policy is valid and no OID text repeats |
| `CertPolicies.EncodedOidsDistinct` | x509/certpol_der.go:73-96 | for an accepted list the encoded OIDs are distinct if and only if the canonical texts are |
| `CertPolicies.DuplicateOidSlipsThrough` | x509/certpol_der.go:80-83 | two spellings of one OID pass the duplicate check: uniqueness of encoded OIDs fails for them |
| `CertPolicies.NumbersRoundTrip` | x509/certpol_der.go:596-630 | notice numbers survive printing and parsing |
| `CertPolicies.ReferenceRoundTrip` | x509/certpol_der.go:596-630 | organization and numbers of a notice reference survive |
| `CertPolicies.NoticeRoundTrip` | x509/certpol_der.go:166-188 | a user notice survives printing and parsing |
| `CertPolicies.PolicyRoundTrip` | x509/certpol_der.go:458-496 | one policy with its qualifiers survives, its OID in canonical form |
| `CertPolicies.RoundTrip` | x509/certpol_der.go:73-188 | for every accepted list: parsing the printed octets gives the list with canonical OID texts if and only if the octets stay below 2^32 + 6, and fails otherwise |
| `CertPolicies.ExactRoundTrip` | x509/certpol_der.go:73-188 | the very same list comes back if and only if its OID texts are canonical and the bound holds |
| `CertPolicies.EncodeInjective` | x509/certpol_der.go:73-188 | accepted lists with the same octets, of whatever length, are equal up to the spelling of OIDs |
| `Der.Cut` | x509/certpol_der.go:315-321 | an element shows where it ends: equal octets start with equal elements, whatever follows |
| `CertPolicies.ParsedCanonical` | x509/certpol_der.go:428-453 | a parsed list that can be printed has canonical OID texts |
| `CertPolicies.ParseEncodeParse` | x509/certpol_der.go:428-662 | for arbitrary octets: parse, print, parse gives what the first parse gave |
| `PolicyCodec.PrintNumbers` | x509/certpol_der.go:166-188 | the loop over notice numbers prints them in order |
| `PolicyCodec.PrintUserNotice` | x509/certpol_der.go:166-188 | the optional reference before the optional text |
| `PolicyCodec.PrintUris` | x509/certpol_der.go:109-135 | the loop over CPS URIs, refusing the first one that is empty or not ASCII |
| `PolicyCodec.PrintQualifiers` | x509/certpol_der.go:109-135 | all qualifiers of a policy in one SEQUENCE, or nothing |
| `PolicyCodec.PrintPolicies` | x509/certpol_der.go:73-96 | the loop with its set of seen OID texts equals the list specification |
| `PolicyCodec.DecodeDisplayText` | x509/certpol_der.go:644-662 | text content by its tag; the UTF-16 branch for BMPString |
| `PolicyCodec.ReadNumbers` | x509/certpol_der.go:612-629 | the loop over the numbers of a reference |
| `PolicyCodec.ReadReference` | x509/certpol_der.go:596-630 | organization, then numbers |
| `PolicyCodec.ReadUserNotice` | x509/certpol_der.go:558-585 | the loop over the items of a notice, later ones overwriting earlier ones |
| `PolicyCodec.ReadQualifier` | x509/certpol_der.go:506-553 | one qualifier is added to the policy record it is given; unknown ones leave it as it was |
| `PolicyCodec.ReadQualifiers` | x509/certpol_der.go:475-493 | the loop over qualifiers, filling one record |
| `PolicyCodec.ReadPolicy` | x509/certpol_der.go:458-496 | one policy read through the cursor, which ends up behind it |
| `PolicyCodec.ReadPolicies` | x509/certpol_der.go:428-453 | the whole parser equals the specification the round trips are about |
| `Asn1Grammar.TagNumberValue` | asn1/asn1.go:141-155 | a high tag number is the number of its groups, wrapped to 64 bits |
| `Asn1Grammar.HeaderReadsElement` | asn1/asn1.go:130-168 | for low tag numbers this header reader and the policy cursor accept the same elements |
| `Asn1Grammar.ParseAccepts` | asn1/asn1.go:70-128 | the recursive parser returns a tree if and only if it is the tree of the whole input and has at most 128 constructed layers |
| `Asn1Grammar.OneTree` | asn1/asn1.go:106-168 | no input has two trees |
| `Asn1Grammar.ParseWithLimitsAccepts` | asn1/limits.go:23-70 | accepts exactly the well-formed trees within both limits; a well-formed input is refused only for a limit it exceeds |
| `Asn1Grammar.ParsersAgree` | asn1/limits.go:23-70 | with depth 128 and at least as many nodes as octets both parsers return the same tree, offsets included, or both refuse |
| `Asn1Grammar.LimitsMonotone` | asn1/limits.go:41-69 | raising a limit never loses an accepted input nor changes its tree |
| `Asn1Grammar.ElementCount` | asn1/limits.go:41-69 | a tree has at most half as many nodes as its element has octets |
| `Asn1Grammar.ElementOffsets` | asn1/asn1.go:106-128 | offsets strictly increase in pre-order and stay inside the element |
| `Asn1Grammar.ParsedShape` | asn1/asn1.go:70-128 | in every accepted tree offsets rise in pre-order, and header octets with primitive values in pre-order rebuild the input |
| `Asn1Grammar.DocumentShape` | asn1/asn1.go:106-168 | both hold of the tree of any document, whichever parser finds it |
| `Asn1Grammar.LimitedShape` | asn1/limits.go:23-70 | both hold of every tree the limited parser returns, within any limits |
| `Asn1Parsers.ReadLength` | asn1/asn1.go:175-195 | the loop over length octets equals the specification |
| `Asn1Parsers.ReadHighTag` | asn1/asn1.go:141-155 | the loop over the groups of a high tag number |
| `Asn1Parsers.ReadHeader` | asn1/asn1.go:130-168 | a fresh node with exactly the fields of the header |
| `Asn1Parsers.ReadNode` | asn1/asn1.go:106-128 | the recursive parser builds fresh nodes that form the specified tree and moves as far as its element |
| `Asn1Parsers.ReadChildren` | asn1/asn1.go:112-126 | the loop that appends children and moves the cursor |
| `Asn1Parsers.ReadDocument` | asn1/asn1.go:70-82 | the whole recursive parser, trailing octets refused |
| `Asn1Parsers.Turn` | asn1/limits.go:41-69 | one turn of the stack loop keeps the result still to be returned and at most maxDepth + 1 frames, and either pops a frame or uses up a node |
| `Asn1Parsers.RunStack` | asn1/limits.go:41-69 | the loop ends with the specified tree or the specified limit error |
| `Asn1Parsers.ReadWithLimits` | asn1/limits.go:23-70 | the whole iterative parser equals the specification, kinds of refusal included |
| `AsnShapes.PairRoundTrip` | asym/signature.go:81-95 | an encoded pair of integers decodes to itself if and only if it stays below the length the decoder takes |
| `Signatures.JoinRawComponents` | asym/signature.go:192-201 | the two copies into a zeroed buffer put each component at the right end of its half |
| `Signatures.RawDerRaw` | asym/signature.go:148-187 | raw to DER to raw is the identity, exactly within the length bound |
| `Signatures.BuiltDerRawDer` | asym/signature.go:148-201 | a built DER converts to raw if and only if the width holds both components, and then back to itself |
| `Signatures.DerRawDer` | asym/signature.go:58-95 | any accepted DER converts back to itself if and only if it is the plain encoding of two nonzero integers |
| `AsnShapes.DecodePairExact` | asym/signature.go:58-62 | whatever is decoded as a pair is one SEQUENCE with shortest length and two shortest integers in front |
| `Signatures.ParseAccepts` | asym/signature.go:58-74 | over every input: accepted if and only if it is one SEQUENCE, with nothing behind it, of two integers that are not negative and then any octets |
| `Signatures.LooseParsed` | asym/signature.go:58-74 | octets behind the integers leave the components as they are, and the input is the plain encoding if and only if there are none |
| `Signatures.AcceptedBeyondPairs` | asym/signature.go:58-74 | an accepted input is not an encoding of two integers if and only if octets follow them inside the SEQUENCE |
| `Signatures.InnerOctetIsAccepted` | asym/signature.go:58-74 | a DER with one extra octet inside that is accepted |
| `Signatures.ZeroIsAccepted` | asym/signature.go:58-74 | a DER with a zero component that is accepted, converts to raw and does not come back |
| `Signatures.RawValues` | asym/signature.go:58-74 | whatever DER is accepted, the halves of the raw form carry its two integers |
| `AsnShapes.QuadRoundTrip` | asym/sm2.go:273-297 | an encoded SM2 ciphertext SEQUENCE decodes to itself if and only if it stays below the length the decoder takes |
| `Sm2Ciphertexts.OrdersSwap` | asym/sm2.go:179-208 | a raw ciphertext converts to the other order if and only if it is acceptable, and back to itself, for both point forms |
| `Sm2Ciphertexts.CompressedToDer` | asym/sm2.go:273-297 | the DER of a ciphertext is the DER of its expansion |
| `Sm2Ciphertexts.ThroughDer` | asym/sm2.go:179-208 | through DER to either order equals converting the expanded ciphertext directly, leading zeros of coordinates included, exactly within the length bound |
| `Sm2Ciphertexts.DerAccepted` | asym/sm2.go:244-271 | a decoded SEQUENCE is taken if and only if the absolute value of each coordinate fits in 32 octets |
| `Sm2Ciphertexts.ParseDerAccepts` | asym/sm2.go:244-271 | over every input: accepted if and only if a SEQUENCE of two integers of at most 32 octets, two octet strings and then any octets is in front |
| `Sm2Ciphertexts.ParsedDer` | asym/sm2.go:244-271 | what parsing makes of any DER it takes, and that building gives the DER of the same fields without signs |
| `Sm2Ciphertexts.DerRawDer` | asym/sm2.go:179-208 | every accepted DER converts to both raw orders, and back to itself if and only if it is the plain encoding of its fields, no coordinate is negative and the hash has 32 octets |
| `Sm2Ciphertexts.DerFromRaw` | asym/sm2.go:273-297 | a DER that comes from a raw ciphertext is the plain encoding of its fields, with no negative coordinate and a hash of 32 octets |
| `Sm2Ciphertexts.ShortHashIsLost` | asym/sm2.go:244-271 | an accepted DER with an empty hash that does not come back |
| `Sm2Ciphertexts.SignIsLost` | asym/sm2.go:251-262 | an accepted DER with a negative coordinate that does not come back |
| `Sm2Ciphertexts.TrailingOctetIsLost` | asym/sm2.go:251-253 | an accepted DER with an octet behind its SEQUENCE that does not come back |
| `Sm2Ciphertexts.InnerOctetIsLost` | asym/sm2.go:251-253 | an accepted DER with an octet behind its fields that does not come back |
| `Sm2Ciphertexts.Sm2Cipher.ToDer` | asym/sm2.go:273-297 | builds the specified DER and fills in missing coordinates |
| `Sm2Ciphertexts.FormatCiphertext` | asym/sm2.go:179-208 | the conversion over a ciphertext object gives the specified result; between raw orders converting the result back gives the argument |
| `MacStream.MacHash.constructor` | mac/mac.go:281-291 | the probe: a context that cannot be duplicated is used by replay |
| `MacStream.MacHash.Write` | mac/mac.go:403-411 | a successful write adds its octets to those since the last Reset, a failed one adds none, in both modes |
| `MacStream.MacHash.Sum` | mac/mac.go:418-433 | a tag handed out is the MAC of exactly the octets written since the last Reset: in replay mode whatever native calls have failed, otherwise while the context is intact; a failure appends nothing |
| `MacStream.MacHash.Recompute` | mac/mac.go:442-454 | rewind, finalise, rewind: success leaves the context holding the same octets again |
| `MacStream.MacHash.Rewind` | mac/mac.go:459-467 | success means the context holds exactly the buffer |
| `MacStream.MacHash.Reset` | mac/mac.go:474-479 | forgets the octets; a native failure is recorded |
| `MacStream.RunIsExpected` | mac/mac.go:403-479 | a run without failures hands out, in order, exactly the tags of the simple object that remembers the octets since Reset |
| `MacStream.SameTags` | mac/mac.go:281-291 | two objects that made the same successful calls, whichever their modes, handed out the same tags |
| `MacStream.Perform` | mac/mac.go:281-291 | any list of calls on a working context, in either mode, hands out exactly the tags of the simple object |
| `MacStream.SumChunks` | mac/mac.go:300-337 | the one-shot sums: a returned tag is that of all chunks together, and any failure is reported |
| `TlsHandshake.StepKeeps` | tls/tls.go:543-620 | every step of every goroutine keeps the invariant of handshake block, helper, contexts, native calls, locks and callers |
| `TlsHandshake.ReachableInv` | tls/tls.go:543-620 | the invariant holds in every reachable state |
| `TlsHandshake.StartsAtMostOnce` | tls/tls.go:564-572 | the native handshake starts at most once, and a finished handshake means it started and succeeded |
| `TlsHandshake.OutcomesAgree` | tls/tls.go:599-610 | when the block has ended, no cached error, the done flag and the published completion are all true or all false |
| `TlsHandshake.ReturnsAfterHelper` | tls/tls.go:584-620 | no call returns and no I/O passes the handshake while the helper runs; every finished call was told the one cached outcome |
| `TlsHandshake.OutcomeIsFinal` | tls/tls.go:547-611 | nothing about a finished handshake ever changes again |
| `TlsHandshake.CancelledNeverSucceeds` | tls/tls.go:602-607 | a context that ends before the last check means failure, and nothing stays published as complete |
| `TlsHandshake.CancellationWins` | tls/tls.go:573-598 | cancelled while the native handshake runs, the call reports the context error whatever else is reported, after the helper has ended |
| `TlsHandshake.CompletionStays` | tls/tls.go:599-610 | a completion visible at the last look at the context is there when the block has ended if and only if the context has not ended at that look, whatever else happens |
| `TlsHandshake.SeenCompletion` | tls/tls.go:599-610 | a completion visible anywhere else stays if and only if it is not the one being taken back at that moment |
| `TlsHandshake.WithdrawnOnlyByCancellation` | tls/tls.go:602-607 | exactly one step makes a visible completion disappear, and the block comes to it only after its context ended |
| `TlsHandshake.WithdrawalHappens` | tls/tls.go:599-607 | a run in which a completion already visible is taken back |
| `TlsHandshake.NoUseAfterFree` | internal/core/ssl.go:583-591 | once the handle is freed nobody is inside a native call and none can begin |
| `TlsHandshake.OneReaderOneWriter` | tls/tls.go:679-743 | at most one native read and one native write at a time, only after a successful handshake and before the handle is freed |
| `TlsHandshake.LateIoFails` | tls/tls.go:719-731 | a read or write that has not passed its last check when the connection is marked closed never enters a native call and returns an error |
| `TlsHandshake.ClosesAgree` | tls/tls.go:777-813 | every Close returns the same error, after the handle is gone |
| `TlsHandshake.WritesAll` | tls/tls.go:731-742 | a write that returns no error has nothing left to send |
| `TlsHandshake.NeverStuck` | tls/tls.go:543-813 | as long as some call has not returned, some goroutine can move without new calls or cancellations |
| `TlsProgress.StepSpends` | tls/tls.go:543-813 | every step that is not a new call uses up something of what is to be done, partial writes included |
| `TlsProgress.RunsEnd` | tls/tls.go:543-813 | no run is longer than what was to be done and what its calls brought, so under any schedule finitely many calls come to an end |
| `TlsProgress.StuckMeansReturned` | tls/tls.go:543-813 | where nothing can happen but new calls and cancellations every call has returned |
| `TlsProgress.EveryCallReturns` | tls/tls.go:543-813 | from every reachable state all calls can return without outside help but the end of native calls |
| `TlsBlock.BlockIsARun` | tls/tls.go:573-611 | for everything the sequential block can hear, in some run of the step machine the block asks and hears just that, in that order, and ends with the error it caches and the matching flags |
| `TlsBlock.RunIsABlock` | tls/tls.go:573-611 | in every run of the machine from the select to the end of the block, however interleaved, what the block asks and hears is a transcript of the sequential block, and it ends with the error and completion that one computes from it; reports and refusals in it are exactly those of the run |
| `TlsBlock.AccountIsOfRun` | tls/tls.go:573-611 | an account with the transcript of a run has the outcome of the helper, the ends of the context of the block, and exactly the callback report and the refusal that occur in the run |
| `TlsBlock.TranscriptDecides` | tls/tls.go:573-611 | equal transcripts give equal errors |
| `TlsConn.CloneDER` | tls/state.go:120-129 | a copy of the slice and of every certificate in it, none of the storage shared |
| `TlsConn.CloneState` | tls/state.go:130-142 | a state with the same contents whose slices and certificates are all new |
| `TlsConn.BuildState` | tls/state.go:144-165 | the state for a native report, sharing exactly the certificates of the report |
| `TlsConn.CapturedIsConsistent` | tls/state.go:150-165 | in every published state verification is Failed exactly when the error list is nonempty, and verified chains imply Passed; when each of them occurs |
| `TlsConn.Conn.Snapshot` | tls/state.go:111-118 | what is handed out has the stored contents and shares nothing with them |
| `TlsConn.Conn.Capture` | tls/state.go:144-184 | publishes exactly the report, complete exactly if asked for and no callback refused, although callbacks may overwrite everything they are given; without a report nothing is published |
| `TlsConn.Conn.Ask` | tls/state.go:170-177 | the callbacks get copies: the state to be published keeps its contents, and the first refusal counts |
| `TlsConn.Conn.HandshakeContext` | tls/tls.go:543-620 | first call decides, later calls repeat its outcome and change nothing; the cached error is computed in program order from the answers given; success needs a handle, a report, no refusal and a context that did not end |
| `TlsConn.Conn.RunHandshake` | tls/tls.go:573-607 | the error is the one computed in program order from the context, the native end, the report and what the callbacks answer; there is none if and only if the published state is complete; an ended context decides it |
| `TlsConn.Conn.Write` | tls/tls.go:719-743 | what went out is the prefix of the argument that the count says, all of it if there is no error; nothing after Close, a close before the lock is held or a failed handshake |
| `TlsConn.Conn.WriteAll` | tls/tls.go:731-742 | the loop over partial native writes; a write of nothing is a short write |
| `TlsConn.Conn.Read` | tls/tls.go:679-701 | what is read is what the peer sent next, nothing lost or repeated; after Close, after a close before the lock is held, after a clean shutdown and for an error while closing the stream has ended |
| `TlsConn.Conn.Close` | tls/tls.go:777-813 | closes once; the first error in the order socket, handle, context is what every call returns |
| `TlsConfig.ValidIsWellFormed` | tls/config.go:233-284 | the checks accept exactly the configurations that meet a list of requirements on protocol, version bounds, policies, bits and names |
| `TlsConfig.SelectedIsFinal` | tls/config.go:307-367 | a selected configuration is valid, serves exactly the negotiated protocol with full credentials and has no selection hook left, so selections never nest |
| `TlsConfig.SelectedCredentials` | tls/config.go:330-349 | the credentials are those the callback picked, else those of the chosen configuration; its client policy is kept |
| `TlsConfig.SelectionSucceeds` | tls/config.go:307-367 | a validated configuration without a configuration callback is selected if and only if it serves the negotiated protocol and its callback, if any, delivers full credentials |
| `TlsConfig.VerifyingServerIsStrict` | tls/tls.go:1068-1114 | a validated server that verifies client certificates is strict, does not continue on failure, asks for a certificate, and requires one exactly in the stricter mode |
| `TlsConfig.ServerAborts` | tls/tls.go:1068-1114 | exactly which validated servers both ask for a certificate and abort on a bad one |
| `TlsConfig.ClientPolicy` | tls/tls.go:355-371 | exactly when a client verifies: an explicit policy decides, else insecure skipping forbids it and roots or a server name bring it about; it is never mixed and never selects |
| `TlsConfig.VerifiesWithoutRoots` | tls/tls.go:355-371 | a client that verifies without roots, because it names its server |
| `TlsConfig.SelectServerConfig` | tls/config.go:307-367 | rewriting a clone step by step gives the specified configuration and leaves every existing one unchanged |
| `TlsConfig.Narrow` | tls/config.go:350-361 | afterwards the configuration means the negotiated protocol only and picks no other one; its bounds fit that protocol, and no other field has changed |
| `TlsConfig.MergedKeepsEachOnce` | tls/config.go:436-456 | every encoding of the joined chains is kept and kept once, nothing else |
| `TlsConfig.MergeCertificateChains` | tls/config.go:436-456 | the loops with the set of seen encodings; fails if and only if some certificate has none |
| `TlsChain.FindIssuer` | tls/chain.go:84-109 | the first unused key match if there is one, else the first unused text match, else nothing because nobody matches |
| `TlsChain.RebuildChain` | tls/chain.go:54-80 | ends; leaf first, no object twice, the rest from the candidates, each the next of the one before, none self-signed before the last, which is self-signed or has no unused issuer |
| `TlsChain.ChainIsUnique` | tls/chain.go:54-80 | that description fits one chain only |
| `TlsChain.NextMayDiffer` | tls/chain.go:84-109 | a link joins certificates whose key identifiers are both there and differ if and only if an authority key is given, no unused candidate has it and the first unused one with the issuer's name has a key identifier |
| `TlsChain.SearchMayDiffer` | tls/chain.go:84-109 | the same, as a condition on the arguments of a search that decides whether it makes such a link |
| `TlsChain.ChainMayDiffer` | tls/chain.go:54-80 | the same for every link of a rebuilt chain |
| `TlsChain.LinkDespiteKeys` | tls/chain.go:99-107 | a leaf and a candidate with different key identifiers that are rebuilt into one chain |
| `Encodings.DecodeUndoesEncode` | meta/encoding.go:89-123 | any text that is the encoding once the ignored blanks are removed decodes to the data |
| `Encodings.StripBlanks` | meta/encoding.go:93-112 | ignored blanks can be inserted anywhere |
| `Encodings.EncodeInjective` | meta/encoding.go:65-79 | no two octet strings have the same encoding |
| `Encodings.HexAccepted` | meta/encoding.go:93-106 | hexadecimal text is accepted if and only if it is pairs of digits of either case, and re-encoding gives it in lower case |
| `Encodings.EncodeDecodeBase64` | meta/encoding.go:107-121 | re-encoding decoded base64 gives the text back if and only if the unused bits of its last group are zero |
| `Sink.Encoder.Write` | meta/sink.go:175-184 | whole groups of pending and new octets come out, fewer than three octets stay behind |
| `Sink.Encoder.Close` | meta/sink.go:260-265 | the octets left behind come out padded |
| `Sink.BytesSink.SetEncoding` | meta/sink.go:131-147 | takes effect if and only if nothing has been written |
| `Sink.BytesSink.Write` | meta/sink.go:154-188 | takes all of the data unless closed; what is in the buffer stays |
| `Sink.BytesSink.Close` | meta/sink.go:251-275 | afterwards the buffer is the encoding of all data written; closing again changes nothing |
| `Sink.PrefixBeforeClose` | meta/sink.go:154-188 | before Close the buffer is a prefix of that encoding |
| `Sink.EncodeInPieces` | meta/sink.go:154-188 | however the data is cut into writes, the result is the encoding of the whole |
| `KeyStore.StoredAdds` | keystore/store.go:105-122 | storing a handle appends it to the survivors of its ID and makes it current |
| `KeyStore.DeletedDrops` | keystore/store.go:130-138 | deleting removes exactly the current handle from the survivors of its ID |
| `KeyStore.LinkOne` | keystore/store.go:166-188 | every rotation in a history follows a current handle: next version modulo 2^32, same alias and generation |
| `KeyStore.MemoryStore.Replace` | keystore/store.go:111-121 | archiving the replaced handle keeps archive and current entry equal to the survivors, for every ID |
| `KeyStore.MemoryStore.Put` | keystore/store.go:105-122 | stores unless the handle or its ID is missing; only a missing algorithm name is filled in |
| `KeyStore.MemoryStore.Delete` | keystore/store.go:130-138 | removes the current entry and archives nothing |
| `KeyStore.MemoryStore.Rotate` | keystore/store.go:166-188 | a new handle with the next version and the new key becomes current, the old one goes to the archive |
| `KeyStore.MemoryStore.Get` | keystore/store.go:83-91 | the handle last stored under the ID, unless it was deleted since |
| `KeyStore.MemoryStore.History` | keystore/store.go:199-209 | a slice of the caller's own: with the current entry it is the survivors of the ID; not found if and only if there are none |
| `KeyStore.MemoryStore.List` | keystore/store.go:143-152 | a slice of the caller's own with exactly the current entries, sorted by ID |
| `KeyStore.SortedIsUnique` | keystore/store.go:143-152 | the entries determine that list |

## Left out

- The native library itself. What it computes is out of scope: cryptographic operations, certificate path validation and revocation appear only as calls that may succeed or fail, and a native object only as the state its callers rely on.
- `encoding/asn1` is modelled for the two SEQUENCE shapes only: shortest lengths below 2^31, shortest integers, and octets inside the SEQUENCE behind the known fields ignored. Its other types and options are not part of this model.
- `core.ExpandSM2Point` is any function from 33 to 65 octets that gives an uncompressed point.
- Standard library text functions are specified, not modelled line by line: `strings.Split`, `strings.TrimSpace`, `strconv.ParseUint`, `utf16.Decode`, hexadecimal and base64. Invalid UTF-8 in text to be decoded is kept octet by octet; it is an error in either reading.
- Sinks that write to files, writers or standard output, and everything else that moves octets in or out of the process; only the sink in memory is modelled.
- The packages `jwk`, `kdf`, `sym`, `ecdh`, `digest` and the parts of `asym` and `x509` that pass arguments on: they would add members whose contracts repeat one check each.
- Look-up tables from names, codes and identifiers to values, the text dumps, and the JSON and PEM forms of key store handles.
- Time: deadlines, finalizers, memory wiping and the pinning of goroutines to threads.
- TlsProgress.RunsEnd: native calls are taken to end, a native handshake after one step and a native read or write after one.
- TlsHandshake.OneReaderOneWriter: the locks inside the native connection and the closing of its descriptor are not part of the model, only its count of running calls.
- TlsConn.Conn.HandshakeContext: is the block in program order for one goroutine; the races are the subject of `TlsHandshake`, to which `TlsBlock.BlockIsARun` and `TlsBlock.RunIsABlock` tie it. What the native connection and the callbacks answer, and what the context says each time it is asked, are parameters.
- TlsConn.Conn.Read: how many octets a native read returns is arbitrary, and when another goroutine closes meanwhile is a parameter, as it is for `Write`.
- TlsConfig.SelectServerConfig: certificates and keys are identities, the slices inside a configuration are values, so `Clone` protects against changes of fields but aliasing of slice storage is not modelled; native failures while building the context are left out.
- MacStream.MacHash.Sum: without replay a tag is promised only while no native call has failed since the last successful Reset, because the native context may then hold anything.
- KeyStore.MemoryStore.List: IDs are ordered by characters, which for valid UTF-8 is the order of their octets; the sorting routine is an insertion.
- KeyStore.MemoryStore.Put: the ID of a stored handle is taken not to be changed by its owner afterwards.
- Sink.BytesSink.Write: writes to memory do not fail; the base64 encoder emits group by group where the standard library uses larger chunks.
