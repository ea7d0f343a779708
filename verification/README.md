# SMBB, verified in Dafny

SMBB is a small C++ library of building blocks for sockets and shared memory. Most of it hands calls to the operating
system; this project models the parts whose outcome is decided by SMBB's own code, in one configuration (POSIX, IPv6 and
shared memory enabled), and proves what those parts promise.

Operating system calls are modelled by what they may answer. Any call may be refused, other processes may change which
files and shared memories exist before any call and inside `Load` just before the open, and the theorems hold whatever
is answered within what POSIX fixes: a descriptor or mapping handed out is not one the process already has; an open with
`O_CREAT | O_EXCL` succeeds only where the name is free, one without either only where it is taken, and neither with an
empty name; only an open descriptor is mapped, and never with size zero; a direct delete succeeds only where the name
exists.

| file | what it models |
|---|---|
| `Text.dfy`, `Bits.dfy`, `Wrappers.dfy` | numerals, separated lists, searching, C strings; bitwise operators on unbounded integers; `Option` |
| `Addresses.dfy` | the address union as family, bytes and port; `operator==`, ports, loopback |
| `AuthorityText.dfy` | what address texts should be (RFC 3986 sections 3.2.2 and 3.2.3, RFC 4291 section 2.2, RFC 5952 section 4), and what the printer makes of them |
| `AuthorityReader.dfy` | a strict reader of such texts, written from the RFCs without reference to the printer |
| `AuthorityPrinter.dfy` | `ToURI`, character by character into the caller's buffer |
| `AuthorityTheorems.dfy` | round trips, injectivity, the buffer bound, and when the text is the canonical one |
| `AddressHash.dfy`, `HashLimits.dfy` | `Hash`, how many bytes it keeps apart, and the collisions beyond that |
| `AddressParse.dfy` | `Parse` over arbitrary resolver and interface lists |
| `Select.dfy` | `SelectSets` and `TestSocket` |
| `Kernel.dfy`, `SharedMemory.dfy`, `Sections.dfy`, `Sockets.dfy`, `Lifecycle.dfy` | descriptors, mappings and names; `SharedMemory`, `SharedMemorySection`, `IPSocket` handles; and whole runs over any number of each |
| `Messages.dfy` | the emulated `SendMultiple` and `ReceiveMultiple` |
| `MapOffset.dfy` | `GetMapOffset` |

Code that works step by step in the source is a class or a method with a loop here, and its contract ties it to a plain
function or value; the lemmas are about those. A lemma whose name ends in `InFull` says what such a function gives, on
all inputs, in terms of its arguments alone.

## What was found

* `ToURI` writes a pending run of zero groups only when a later group follows or when nothing at all was printed. So an
  address whose first run of two or more zero groups reaches the last group without being the whole address loses its
  tail: `fe80::` prints as `[fe80]`. `AuthorityTheorems.RoundTrip` shows that these are the only addresses whose text does
  not read back, and that their text is never read as a different address. `ToURIRepaired` tests the loop's pending
  flag beside the cursor and has the round trip for every address. Nothing is lost even as written:
  `AuthorityTheorems.PrintingIsInjective` holds for all addresses.
* `ToURI` compresses the first run of zero groups rather than a longest one, so its text is the RFC 5952 one exactly
  when the first run is a longest one and was not dropped (`AuthorityTheorems.CanonicalIff`). The address
  `1:0:0:2:0:0:0:3` prints as `1::2:0:0:0:3` and not as `1:0:0:2::3` (`AuthorityTheorems.NotCanonicalExample`).
* `Hash` keeps apart any six consecutive bytes of an address where `size_t` has 64 bits, so the default call is free of
  collisions on all IPv4 addresses and ports, and any three where it has 32. The IPv6 loop reads the address as `char`,
  and where that is signed, as on x86, only one byte is kept apart: addresses beginning with `c400` and `3afe` hash alike
  when they agree in the rest. One byte more, of address or port and for signed `char` within the
  address, collides in every place of every address, so these limits are exact (`HashLimits.LimitIsExact`).
* `TestSocket` has no test that the descriptor fits the sets, as `AddSocket` and `RemoveSocket` have. It looks only inside
  the sets if and only if the descriptor is below `FD_SETSIZE` or nothing is asked (`Select.LooksInsideIff`); a socket
  that `AddSocket` has just refused is looked for outside (`Select.RefusedExample`).
* For descriptors that fit, `TestSocket` overwrites the mask in one branch and tests a comparison against the wrong bit in
  another. After a `Wait` that did not fail it can be trusted exactly for masks without the connect-failed bit and for the
  mask with all three bits (`Select.TrustedMasks`); for the others `Select.TestExactIff` gives the calls that are answered
  as meant, and `Select.TestInFull` the answers. In particular a socket tested for connected and connect-failed alone is
  reported as one or the other even when `select` found nothing.
* `TestSocket` reads the socket's pending error, and reading clears it. A second test answers as if the first had not been
  made exactly when there was no error or one of the two does not read it (`Select.SecondTestIff`); a failed connection
  tested twice for everything has failed and is then connected (`Select.SecondTestExample`).
* A failed resize leaves the object it just created behind unless deletion on close was asked for, and nothing else that
  fails does (`SharedMemory.NothingLeftBehindIff`, with a request in `SharedMemory.LeftBehindExample`).
* `IPSocket::Open` with a bind, listen or connect step can return false with the socket still open; `Sockets.FailedOpenIff`
  says exactly when, and `Sockets.FailedOpenExample` is a call. It is still owned and closed later
  (`Lifecycle.RunConserves`).
* `SendMultiple` and `ReceiveMultiple` return a negative length unchanged, as a result that counts as failed without an
  error (`Messages.NegativeLengthExample`; `Messages.FailedWithoutErrorIff` has all such results).
* `Receive` reports a truncated datagram with a size error, which `ReceiveMultiple` drops: what it returns and stores is the
  same whether or not datagrams were truncated (`Messages.TruncationInvisible`), and it reports a size error beside a
  truncated datagram only where another message failed with it (`Messages.TruncationReportedIff`).

## Model

| member | source | states |
|---|---|---|
| AuthorityPrinter.ToURI | src/smbb/IPAddress.cxx:179-258 | returns null and leaves the buffer alone for other families; otherwise the 64-byte buffer holds exactly the specified text and a NUL, every later byte is untouched, and no write leaves the buffer; as a C string it is that text, and the strict reader gets the address and port back from it exactly when the tail was not dropped |
| AuthorityPrinter.ToURIRepaired | src/smbb/IPAddress.cxx:179-258 | the same for the printer that flushes a pending zero run, against the text with "::" for the first run of at least two zero groups; the C string in the buffer reads back for every address |
| AuthorityPrinter.PutGroups | src/smbb/IPAddress.cxx:202-230 | the two-flag group loop: at the end a run is pending exactly when the first run of two or more zero groups reaches group 7, the cursor has not moved exactly when all groups are zero, and the text is the groups joined by colons with "::" in place of exactly that run, or only the groups before it when it is pending |
| AuthorityPrinter.GuardMeans | src/smbb/IPAddress.cxx:212-214 | the loop's guard holds exactly for the groups of the first run of at least two zeros, given what the flags mean |
| AuthorityPrinter.GetDigit | src/smbb/IPAddress.cxx:169-176 | one use of the digit macro extends the leading digits of the number by one, suppressing leading zeros |
| AuthorityPrinter.PutOctet | src/smbb/IPAddress.cxx:191-195 | writes the decimal numeral of an octet |
| AuthorityPrinter.PutPort | src/smbb/IPAddress.cxx:247-252 | writes the decimal numeral of any 16-bit port |
| AuthorityPrinter.PutGroup | src/smbb/IPAddress.cxx:220-223 | writes the lower-case hexadecimal numeral of the two bytes |
| AuthorityPrinter.PutOctets | src/smbb/IPAddress.cxx:187-196 | writes the four octets joined by dots in at most 15 bytes |
| AuthorityPrinter.PutV6Host | src/smbb/IPAddress.cxx:199-238 | writes the bracketed host, as written or with the pending run flushed |
| Text.NumeralReadsBack | src/smbb/IPAddress.cxx:169-176 | a printed numeral is all digits and has the printed value, in both bases |
| Text.NumeralCanonical | src/smbb/IPAddress.cxx:220-223 | a printed numeral is lower-case and has no leading zero |
| Text.CanonicalIsNumeral | src/smbb/IPAddress.cxx:169-176 | it is the only such text of its value |
| Text.DigitsAre | src/smbb/IPAddress.cxx:169-223 | the sixteen digits |
| AuthorityTheorems.RoundTrip | src/smbb/IPAddress.cxx:178-258 | the strict reader gets the bytes and the port back from the text of every address, except in the dropped-tail case, where it gets nothing |
| AuthorityTheorems.RoundTripIff | src/smbb/IPAddress.cxx:217-235 | the text reads back if and only if the tail was not dropped |
| AuthorityTheorems.RepairedRoundTrip | src/smbb/IPAddress.cxx:232-235 | with the missing flush every address reads back, and the flush changes the text of exactly the dropped-tail addresses |
| AuthorityTheorems.PaddedRoundTrip | src/smbb/IPAddress.cxx:199-253 | a reader that supplies zeros for missing trailing groups recovers every printed address |
| AuthorityTheorems.PrintingIsInjective | src/smbb/IPAddress.cxx:179-258 | two addresses print alike with the port exactly when `operator==` holds, and without it exactly when family and bytes agree |
| AuthorityTheorems.TruncatedExample | src/smbb/IPAddress.cxx:217-235 | `fe80::` prints as `[fe80]`, which is no authority; the repaired printer gives `[fe80::]` |
| AuthorityTheorems.AuthorityInFull | src/smbb/IPAddress.cxx:187-253 | dots between the four octets, brackets around an IPv6 host, and a colon and the port exactly when it is wanted |
| AuthorityTheorems.LoopbackExample | src/smbb/IPAddress.cxx:187-253 | the text of 127.0.0.1 with port 80 |
| AuthorityTheorems.NoNul | src/smbb/IPAddress.cxx:254-257 | no text, as written or repaired, contains the terminator |
| AuthorityTheorems.AuthorityFits | src/smbb/IPAddress.h:71 | text and terminator take at most 22 bytes for IPv4 and 48 for IPv6 |
| AuthorityTheorems.CanonicalIff | src/smbb/IPAddress.cxx:203-235 | the printed host is the RFC 5952 section 4 text exactly when the first run is a longest one and was not dropped |
| AuthorityTheorems.NotCanonicalExample | src/smbb/IPAddress.cxx:203-235 | `1:0:0:2:0:0:0:3`, whose first run is not a longest one, is printed as `1::2:0:0:0:3` where RFC 5952 asks for `1:0:0:2::3` |
| AuthorityTheorems.CanonicalUnique | src/smbb/IPAddress.cxx:203-235 | the canonical form used as the yardstick is one text per address |
| AuthorityTheorems.CanonicalExists | src/smbb/IPAddress.cxx:203-235 | every address has that text |
| AuthorityText.DropsTailIsRun | src/smbb/IPAddress.cxx:212-217 | the dropped-tail condition on the address bytes is the first run ending at group 7 after starting past group 0 |
| Addresses.EqualsLaws | src/smbb/IPAddress.h:124-135 | `operator==` is symmetric and transitive, and reflexive exactly on IPv4 and IPv6 addresses |
| Addresses.PortLaws | src/smbb/IPAddress.h:106-168 | replacing the port changes nothing else, and `GetPort` is the port as a signed 16-bit number |
| Addresses.LoopbackLaws | src/smbb/IPAddress.h:77-223 | the loopback address is loopback and not "any", and is the only loopback address of its family up to port, flow and scope |
| Addresses.SpecialAddresses | src/smbb/IPAddress.h:77-223 | loopback is 127.0.0.1 or ::1 and "any" is 0.0.0.0 or ::, and an address of another family has no port |
| AddressHash.Hash | src/smbb/IPAddress.h:171-192 | the two loops compute the fold of the byte stream, with wraparound at either word size and signed or unsigned char |
| AddressHash.HashInFull | src/smbb/IPAddress.h:171-186 | the hash without the port as a chain of states from 0x811c9dc5, each xored with the next byte, with its sign where char is signed, and multiplied by 16777619 in the machine word |
| AddressHash.PortInFull | src/smbb/IPAddress.h:179-188 | the port is mixed in as the short that holds it in network order, low byte first and then high byte, for both families and byte orders |
| AddressHash.UnsetHash | src/smbb/IPAddress.h:171-191 | an address of another family hashes to 0x811c9dc5 |
| AddressHash.HashAgrees | src/smbb/IPAddress.h:124-192 | equal addresses hash alike, and the hash without the port does not see the port |
| AddressHash.MixInjective | src/smbb/IPAddress.h:177 | one hash step is injective in the state and in the value mixed in |
| AddressHash.MixOnto | src/smbb/IPAddress.h:177 | and onto: every state is reached from exactly one state, whatever is mixed in |
| AddressHash.OneByteNeverCollides | src/smbb/IPAddress.h:175-189 | addresses of one family that can differ in one byte of address or port only hash alike exactly when that byte agrees, at both word sizes and for both kinds of char |
| AddressHash.PortNeverCollides | src/smbb/IPAddress.h:180-188 | for a fixed address of either family the hash with the port is injective in the port |
| AddressHash.WindowNeverCollides | src/smbb/IPAddress.h:175-189 | addresses that can differ only within six consecutive bytes of address and port with a 64-bit `size_t`, or three with a 32-bit one, hash alike exactly when those bytes agree; in the IPv6 loop for unsigned char |
| AddressHash.IPv4NeverCollides | src/smbb/IPAddress.h:175-177 | with a 64-bit `size_t` the hash without the port is collision-free on the whole IPv4 space |
| AddressHash.IPv4EndpointsNeverCollide | src/smbb/IPAddress.h:171-182 | with a 64-bit `size_t` the default hash of two IPv4 addresses with ports is the same exactly when `operator==` holds |
| AddressHash.WideLattice | src/smbb/IPAddress.h:172-177 | d p^5 + e p^4 + f p^3 + g p^2 + x p stays more than 255 away from every multiple of 2^64 for differences of the size five steps can make, unless all are zero |
| AddressHash.NarrowLattice | src/smbb/IPAddress.h:172-177 | the same for d p^2 + e p and 2^32 |
| HashLimits.LimitIsExact | src/smbb/IPAddress.h:171-192 | n consecutive bytes of address and port, anywhere in any address, are always kept apart if and only if n is at most six with a 64-bit and three with a 32-bit `size_t`, or at most one in the IPv6 loop with signed char; windows from that loop's last byte into the port are not covered for signed char |
| HashLimits.NarrowExample | src/smbb/IPAddress.h:172-182 | 0.230.5.107 and 6.112.128.0 hash alike with a 32-bit `size_t` |
| HashLimits.WideExample | src/smbb/IPAddress.h:185-189 | two seven-byte beginnings of IPv6 addresses that hash alike with a 64-bit `size_t` and unsigned char |
| HashLimits.SignedExample | src/smbb/IPAddress.h:185-189 | two two-byte beginnings of IPv6 addresses that hash alike with signed char and either `size_t` |
| AddressParse.Parse | src/smbb/IPAddress.cxx:46-113 | -1 with the array untouched, or a count within 0 and the size with exactly that prefix filled, by the branch the address selects |
| AddressParse.ResolvedInFull | src/smbb/IPAddress.cxx:97-113 | for any address but "" exactly the first IPv4 and IPv6 socket addresses of the resolver's list, unchanged and in order, as many as fit |
| AddressParse.InterfacesInFull | src/smbb/IPAddress.cxx:59-94 | for "" exactly the first interface addresses of the family asked for that are not 127.0.0.1 or ::1, in order and as many as fit, unchanged but for the port, which is the first nonzero resolved one or zero |
| AddressParse.Fill | src/smbb/IPAddress.cxx:83-106 | a list walk is take, filter and map: the filled prefix is the first images of the kept entries, in order |
| AddressParse.FindPort | src/smbb/IPAddress.cxx:65-72 | finds the first nonzero port of an IP entry |
| AddressParse.PortIsFirstNonzero | src/smbb/IPAddress.cxx:65-72 | that port is zero exactly when no IP entry has one, and otherwise is that of an entry with none before it |
| AddressParse.KeptIsStored | src/smbb/IPAddress.cxx:83-89 | every kept entry has its image stored after exactly those of the kept entries before it |
| AddressParse.InterfacesAreUsable | src/smbb/IPAddress.cxx:77-93 | every interface result has the family asked for, is not loopback, and carries the resolved port |
| Select.SelectSets.constructor | src/smbb/IPSocket.h:292-302 | both sets empty, no checks, and the invariant holds |
| Select.AddInFull | src/smbb/IPSocket.h:331-346 | a socket is accepted if and only if it fits and is added for something, and is then in exactly the sets it was added to, by the three bits of the mask |
| Select.SelectSets.AddSocket | src/smbb/IPSocket.h:306-347 | refuses an empty mask or a descriptor that does not fit and then changes nothing; otherwise the new sets, maximum and checks, keeping the invariant |
| Select.SelectSets.RemoveSocket | src/smbb/IPSocket.h:350-370 | the new sets; maximum and checks are kept, and with them the invariant |
| Select.RemoveInFull | src/smbb/IPSocket.h:361-369 | exactly this socket leaves exactly the sets asked about |
| Select.SelectSets.Wait | src/smbb/IPSocket.h:374-391 | the count and both sets are what `select` over every descriptor with both sets passed would give |
| Select.WaitInFull | src/smbb/IPSocket.h:374-391 | the ready sockets of each set stay and are counted; a failure changes nothing and is -1 |
| Select.RunRefinesWatched | src/smbb/IPSocket.h:282-391 | over every run of calls the class answers exactly as two plain sets without summaries do, and its invariant holds |
| Select.SelectSets.TestSocket | src/smbb/IPSocket.h:394-414 | no answer, standing for a read outside the sets, exactly for a descriptor that does not fit and is asked something about; else its answer, exactly when that is the requested values that are ready, and the pending error it leaves |
| Select.TestInFull | src/smbb/IPSocket.h:394-413 | its answer for every mask, descriptor, state and pending error, with what the overwritten mask makes of it, and the error it leaves |
| Select.WantedInFull | src/smbb/IPSocket.h:393-413 | what is meant by the requested values that are ready |
| Select.SelectSets.TestSocketRepaired | src/smbb/IPSocket.h:394-414 | with the bound tested and the two slips mended the result is the requested values that are ready, for every mask and every descriptor |
| Select.TestedSocket.GetError | src/smbb/IPSocket.h:711-714 | gives the pending error and clears it |
| Select.LooksInsideIff | src/smbb/IPSocket.h:394-414 | the call looks only inside the sets if and only if the descriptor is below `FD_SETSIZE` or nothing is asked |
| Select.RefusedExample | src/smbb/IPSocket.h:331-413 | descriptor 1500 is refused by `AddSocket` and looked for outside the set by `TestSocket` |
| Select.TestExactIff | src/smbb/IPSocket.h:394-414 | by mask and by what the sets and the error say, the calls that are answered as meant |
| Select.TrustedMasks | src/smbb/IPSocket.h:373-414 | the masks for which every descriptor that fits is answered as meant after every run that ends in a wait that did not fail are those without connect-failed and the full one |
| Select.SecondTestIff | src/smbb/IPSocket.h:401-403 | a second test, of any mask, answers as if the first had not been made if and only if there was no pending error or one of the two does not read it |
| Select.SecondTestExample | src/smbb/IPSocket.h:401-403 | a failed connection tested twice for everything is reported as failed and then as connected |
| Select.MaskOperators | src/smbb/IPSocket.h:265-277 | the three-bit masks follow the integer operators on the bits 0x1, 0x2 and 0x8 |
| SharedMemory.SharedMemory.Load | src/smbb/SharedMemory.cxx:173-212 | the step-by-step code is the specified transition of world, object and result |
| SharedMemory.ResultInFull | src/smbb/SharedMemory.cxx:176-209 | the condition for each of the five results, in terms of the lengths of the names, of what exists and of what the system answers |
| SharedMemory.ObjectInFull | src/smbb/SharedMemory.cxx:176-211 | what is left of the object: on success the descriptor and, for deletion on close, the name in its space, which exists; otherwise nothing |
| SharedMemory.WorldInFull | src/smbb/SharedMemory.cxx:176-211 | what is left of the descriptors, the names and the calls made, after closing what was loaded before |
| SharedMemory.LoadExits | src/smbb/SharedMemory.cxx:173-212 | every exit in full, whatever other processes have made of the names before the open: a failed open unlinks and keeps nothing; a failed resize closes what it opened and unlinks what it created exclusively exactly when deletion on close was asked for; success holds the descriptor and arms exactly its own name |
| SharedMemory.LoadedIff | src/smbb/SharedMemory.cxx:173-212 | the load succeeds, and the object then has a descriptor, exactly when open gives one and a new object can be resized |
| SharedMemory.NothingLeftBehindIff | src/smbb/SharedMemory.cxx:200-208 | a load that does not succeed leaves no new name behind if and only if it was not the failed resize of an object to be kept |
| SharedMemory.LeftBehindExample | src/smbb/SharedMemory.cxx:205-208 | a request whose resize fails, which leaves its name behind exactly when deletion on close was not asked for |
| SharedMemory.SharedMemory.DeleteFileBacked | src/smbb/SharedMemory.cxx:162-164 | one direct unlink of the file |
| SharedMemory.SharedMemory.DeleteNamed | src/smbb/SharedMemory.cxx:167-170 | one direct unlink of the name behind its slash, and no call at all for a null name or one that does not fit |
| SharedMemory.DeleteInFull | src/smbb/SharedMemory.cxx:162-170 | the condition for a direct delete to succeed, and what it changes |
| SharedMemory.SharedMemory.Close | src/smbb/SharedMemory.cxx:215-229 | unlinks a pending name, closes the descriptor, and forgets both |
| SharedMemory.CloseInFull | src/smbb/SharedMemory.cxx:215-229 | the pending name leaves its space, the descriptor is released, both are forgotten, and nothing else changes |
| SharedMemory.CloseIdempotent | src/smbb/SharedMemory.cxx:215-229 | closing again does nothing to world or object |
| SharedMemory.CopyFilename | src/smbb/SharedMemory.cxx:114-123 | copies the name and its terminator when it fits, and touches nothing when it does not |
| SharedMemory.CopyName | src/smbb/SharedMemory.cxx:125-135 | puts a slash before the name when both fit with the terminator, and touches nothing when they do not |
| Sections.Section.constructor | src/smbb/SharedMemorySection.h:93-108 | maps unless the size is zero, keeps the null pointer when mapping fails, and takes over the memory's read-only flag |
| Sections.SectionInFull | src/smbb/SharedMemorySection.h:93-108 | a mapping is kept if and only if it was asked for, of an open descriptor, and the system gave a new address |
| Sections.Section.Destroy | src/smbb/SharedMemorySection.h:110-120 | unmaps exactly what is mapped |
| Sections.DestroyInFull | src/smbb/SharedMemorySection.h:110-120 | exactly the section's mapping is released |
| Sockets.IPSocket.Open | src/smbb/IPSocket.h:633-639 | never overwrites a valid handle |
| Sockets.IPSocket.OpenAddress | src/smbb/IPSocket.h:642-661 | the result is that of all the steps, the handle that of the first alone |
| Sockets.OpenInFull | src/smbb/IPSocket.h:633-661 | the descriptor is taken if and only if there was none and the system gave a new one, and the steps that count are those of the attempt |
| Sockets.FailedOpenIff | src/smbb/IPSocket.h:633-661 | a false result leaves a valid handle if and only if the handle was valid before, or the socket opened and a later step failed |
| Sockets.FailedOpenExample | src/smbb/IPSocket.h:650-651 | a refused bind leaves the descriptor open, and opening again fails because of it |
| Sockets.IPSocket.Close | src/smbb/IPSocket.h:682-690 | closes the handle and forgets it |
| Sockets.CloseInFull | src/smbb/IPSocket.h:682-690 | closing releases exactly the handle's descriptor, or nothing |
| Sockets.IPSocket.Destroy | src/smbb/IPSocket.h:1329-1332 | closes a valid handle |
| Sockets.IPSocket.Swap | src/smbb/IPSocket.h:1335-1339 | exchanges the two handles, also when both are the same object |
| Lifecycle.StepConserves | src/smbb/SharedMemory.cxx:161-229 | every call keeps conservation, on every exit, and so do the direct deletes and whatever other processes do to the names |
| Lifecycle.RunConserves | src/smbb/SharedMemory.h:99-125 | over every run, each open descriptor and each mapping is held by exactly one object and nothing else is held, each one handed out is live or was released once, nothing else was released, and each name armed is pending or was unlinked once by closing; direct deletes and changes by other processes come anywhere in the run |
| Lifecycle.NothingShared | src/smbb/IPSocket.h:1318-1340 | no two objects of a run, of whatever kinds, hold the same descriptor or mapping, and what one holds is live |
| Lifecycle.SectionStaysMapped | src/smbb/SharedMemorySection.h:92-120 | a section stays mapped through every call but its own destruction, closing its shared memory included |
| Lifecycle.TouchesOnly | src/smbb/SharedMemory.h:99-125 | a call changes no other object than those it works on, and closing or destroying one leaves it holding nothing and waiting for nothing |
| Lifecycle.NothingLeft | src/smbb/SharedMemory.h:102 | when every object is destroyed, nothing is open or mapped, acquisitions and releases balance one by one, and so do armed names and unlinks |
| Lifecycle.CreatedAgainIff | src/smbb/SharedMemory.cxx:161-212 | a name that was created, kept and closed can be created again if and only if it was deleted in between, when nobody else touches the names |
| Lifecycle.SwapConserves | src/smbb/IPSocket.h:1335-1339 | swapping, self-swap included, keeps conservation |
| Lifecycle.PendingIsLastLoad | src/smbb/SharedMemory.cxx:196-228 | a pending name is that of the object's load in effect, which asked for deletion on close, and stands beside an open descriptor |
| Messages.MessageSocket.SendMultiple | src/smbb/IPSocket.h:1234-1248 | the count of the longest successful prefix, -1 when it is empty, with the first failure's error; exactly that prefix is sent and has its results set |
| Messages.MessageSocket.ReceiveMultiple | src/smbb/IPSocket.h:1189-1203 | the same for receiving, with the data of exactly that prefix stored |
| Messages.OutcomeInFull | src/smbb/IPSocket.h:1189-1248 | in terms of the system's answers: the length, or the number of answers before the first failure or -1, with that failure's errno, and which answers are used up |
| Messages.NothingToCall | src/smbb/IPSocket.h:1193-1202 | a length of zero or less is returned as it is, and no call is made |
| Messages.StoredInFull | src/smbb/IPSocket.h:1194-1245 | which results and data are stored where |
| Messages.SentInFull | src/smbb/IPSocket.h:1238-1247 | exactly the messages before the first failure are sent |
| Messages.FailedWithoutErrorIff | src/smbb/IPSocket.h:1189-1248 | a failed result has no error if and only if the length is negative or the first call failed with errno zero |
| Messages.NegativeLengthExample | src/smbb/IPSocket.h:1234-1248 | length -1 is returned as -1 without an error |
| Messages.MessageSocket.Send | src/smbb/IPSocket.h:1218-1228 | one message; the error is recorded only for a failure |
| Messages.MessageSocket.Receive | src/smbb/IPSocket.h:1159-1183 | one message; a truncated one succeeds with a size error |
| Messages.CallInFull | src/smbb/IPSocket.h:1159-1228 | one call in terms of the system's next answer: what it returns, whether the message is sent, and what is left |
| Messages.TruncationReportedIff | src/smbb/IPSocket.h:1181-1202 | when a call counts a truncated datagram, which `Receive` reports with a size error, it has that error if and only if the message that ended it failed with it |
| Messages.TruncationInvisible | src/smbb/IPSocket.h:1189-1202 | what `ReceiveMultiple` returns and stores does not depend on which datagrams were truncated |
| Messages.TruncationExample | src/smbb/IPSocket.h:1181-1202 | one truncated datagram: a size error when received alone, none as a call on one message |
| Messages.PrefixAt | src/smbb/IPSocket.h:1238-1247 | the counted prefix is the only place with successes before it and a failure, or the end, at it |
| Messages.ResumingSendsOnce | src/smbb/IPSocket.h:1233-1248 | a caller that drops the counted messages and calls again, any number of times, sends each message exactly once and in order |
| MapOffset.OffsetCache.GetMapOffset | src/smbb/SharedMemorySection.h:71-79 | the same value on every call whatever is cached: the offset rounded down to the page size |
| MapOffset.OffsetCache.GetOffsetSize | src/smbb/SharedMemorySection.h:46-68 | the page size on every call, cached or not |
| MapOffset.MaskRoundsDown | src/smbb/SharedMemorySection.h:78 | clearing the mask's bits in two's complement is rounding down, for negative offsets too |
| MapOffset.RoundDownGreatest | src/smbb/SharedMemorySection.h:70-79 | the result is the greatest multiple not above the offset, and multiples are left alone |
| MapOffset.RoundDownMonotone | src/smbb/SharedMemorySection.h:70-79 | a larger offset never maps lower |

## Left out

- Windows branches and builds without IPv6 or shared memory: one configuration is modelled.
- The layout of the address union: an address is its family, bytes and port, and `ntohs` and `htons` are taken to be inverse; `AddressHash` takes the byte order as a parameter.
- AuthorityReader.Read: the mixed form of RFC 4291 section 2.2 with a dotted quad at the end is not read, as the printer never writes it; RFC 3986 registered names and user information are not read either.
- AuthorityTheorems.CanonicalIff: the mixed form that RFC 5952 section 5 recommends for addresses that embed IPv4 ones is not considered.
- HashLimits.LimitIsExact: with signed char, not stated for windows that begin with the last byte of an IPv6 address and reach into the port.
- AddressParse.Parse: the hints passed to the resolver (flags, socket type) are not modelled, and a list entry's socket address is taken to be of the family the entry names.
- Select.SelectSets.TestSocket: what a read outside the sets would find is not modelled, nor a failing read of the pending error.
- Select.SelectSets.Wait: the timeout only reaches the operating system and is not modelled; sockets with an invalid handle are a precondition, and bits of a mask other than the three named ones, which nothing reads, are not represented.
- SharedMemory.SharedMemory.Load: `_name` is kept as the C string in the buffer; filling the buffer is modelled by `CopyFilename` and `CopyName`. Other processes may change the names before any call and before the open within `Load`, but not between that open and the unlink after a failed resize; an unlink by closing that fails is such a change, putting the name back.
- Lifecycle.RunConserves: an `AutoCloseIPSocket` built from a copy of an owned `IPSocket` is not part of the runs, as the source leaves that aliasing to its caller.
- Messages.MessageSocket.ReceiveMultiple: receive flags are not modelled, nor is the native call used where the system has one.
- Sections.Section.constructor: the offset is stored but its alignment is left to the caller, as in the source; a misaligned mapping is one of the answers that fail.
- `GetInterfaceIndex`, dynamic symbols, `Initialize`, `Finish`, QWAVE, polling, socket options and multicast management: wrappers without logic of their own.
