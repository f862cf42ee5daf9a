# Verified models of the pgcrypto and orafce cores

Dafny models of three parts of the repository's `contrib` tree, with proofs of
what each is for:

- the arbitrary-precision integers of pgcrypto: digit kernels, Karatsuba
  multiplication and squaring, long division, Barrett reduction, modular
  exponentiation, two GCD algorithms, modular inverse, and text and byte
  conversion;
- the shared-memory subsystem of orafce: the slot allocator, the alert protocol,
  and named pipes with their packed messages;
- the streaming transforms of pgcrypto: OpenPGP cipher feedback, DES with
  crypt's salt, Blowfish chaining, incremental MD5, and push filters.

Code that updates buffers and tables in place is modelled by methods and classes
proved against specification functions; what the code promises is then proved of
those functions for all inputs, all runs or all reachable states. Operations of
the shared-memory subsystem run under one exclusive lock, so each is one step.

| files | what they hold |
|---|---|
| `Digits`, `Kernels`, `Karatsuba`, `Squaring` | digit runs and their values, the loops and recursions on raw buffers |
| `Magnitude`, `Integers`, `Shifts` | used digits, signed numbers, powers of two |
| `Barrett`, `ModExp`, `Division`, `Gcd`, `SteinGcd`, `Modular` | reduction, exponentiation, division, divisors, residues |
| `Text`, `Binary` | radix 2 to 36 and two's complement |
| `Slots`, `Allocator`, `AllocatorRuns` | tilings of the region, the slot table, whole runs |
| `AlertSpec`, `AlertSteps`, `AlertLaws`, `Alert` | the alert invariant and reading, the other steps and runs, what each step does, the tables |
| `PipeSpec`, `PipeLaws`, `Pipes`, `Packing`, `Transfer` | queues and runs, what each step does to a pipe, the table, the message format, end to end |
| `Bytes`, `CfbSpec`, `CfbProof`, `Cfb` | the reference and the byte machine, their agreement, the block loops |
| `DesBits`, `DesTables`, `DesSpec`, `Des` | bit selections, the mask and S-box tables, rounds, cached state |
| `Blowfish`, `Md5`, `Mbuf` | chaining, incremental hashing, filter chains |
| `Common` | types and sequence functions that several of these share |

Some promises do not hold of the code as it is. Each is kept as the code has it,
and the exact condition under which it does hold is proved:

- the quotient of long division is too large when a running remainder reaches
  the divisor's top digit one place up (`Division.UDiv`, `Division.StallsIff`,
  with operands in `Division.StallExample`); the remainder is always right;
- the constant of Barrett reduction, such a quotient, is then too large as well
  (`Modular.BrMu`, with a modulus in `Modular.MuExample`); reduction and modular
  exponentiation are proved for the exact constant;
- Karatsuba recursion need not end for thresholds 1 to 3 (`Karatsuba.ShrinksIff`);
- the output buffer of a product or square can be shorter than the final
  additions of the split form reach (`Karatsuba.RoomIff`,
  `Squaring.SqrRoomIff`, with 33 by 33 digits in `Karatsuba.RoomExample`);
- comparison tells two zeros of different sign apart (`Integers.Compare`);
- modular exponentiation gives 1 instead of 0 for modulus 1 and exponent 0
  (`ModExp.Embar`);
- in resync mode a call that ends one byte into the two-byte block mixes that
  byte with the wrong key byte (`Cfb.Context.Process`, `Cfb.InsideIff`, with a
  cipher in `Cfb.SlipExample`);
- the MD5 bit counter is wrong after a call of 2^29 bytes or more
  (`Md5.CounterExact`);
- an event's array of receivers outgrows its length field with the 241st
  receiver (`AlertSteps.RoomExact`).

Where documentation and code differ, the code is followed: the comment on
mp_int_egcd promises c = ax + by, but the coefficients are those of |a| and |b|;
the error for too many receivers of one event cannot be reached, because the
unsigned char length wraps first (`AlertSteps.RoomExact`).

## Model

| member | source | states |
|---|---|---|
| Kernels.UAdd | contrib/pgcrypto/imath.c:2463-2495 | sum digits plus carry spell a + b, for operands that may overlap the output at the same place; nothing outside the output window changes |
| Kernels.USub | contrib/pgcrypto/imath.c:2502-2533 | for a >= b the output spells a - b, no borrow is left, nothing outside the window changes |
| Kernels.UMul | contrib/pgcrypto/imath.c:2641-2667 | into zeroed digits, the output spells a * b and nothing outside changes |
| Karatsuba.KMul | contrib/pgcrypto/imath.c:2540-2634 | for all sizes: low size_a+size_b digits become a * b, digits past them stay as they were, no inner subtraction borrows and no carry is lost; the recursion ends |
| Karatsuba.ShrinksIff | contrib/pgcrypto/imath.c:2563-2602 | every recursive call of a split is smaller, for all sizes, exactly when the threshold is 0 or at least 4 |
| Karatsuba.ReachBound | contrib/pgcrypto/imath.c:2619-2623 | how many output digits the final additions read and write: at least size_a+size_b and at most two more than twice the longer operand |
| Karatsuba.RoomIff | contrib/pgcrypto/imath.c:821-836 | the digits mp_int_mul provides are as many as s_kmul reaches exactly when there is no split, the longer operand is even with the other at most one digit shorter, or the default precision suffices by itself |
| Karatsuba.RoomExample | contrib/pgcrypto/imath.c:166-170 | with the default settings two numbers of 33 digits reach two digits past the 66 provided |
| Karatsuba.Assembled | contrib/pgcrypto/imath.c:2618-2623 | putting the two outer products side by side and adding the middle one spells the whole product |
| Squaring.CarryBound | contrib/pgcrypto/imath.c:2760-2785 | with a carry of at most 2B-2 the doubled product overflows 64 bits at most once and the next carry is again at most 2B-2 |
| Squaring.RippleUp | contrib/pgcrypto/imath.c:2787-2796 | the last carry is added without leaving the output digits |
| Squaring.USqr | contrib/pgcrypto/imath.c:2739-2798 | the output spells a * a |
| Squaring.KSqr | contrib/pgcrypto/imath.c:2674-2732 | the output spells a * a for all sizes, nothing outside changes, the recursion ends |
| Squaring.SqrRoomIff | contrib/pgcrypto/imath.c:908-925 | the digits mp_int_sqr provides are as many as s_ksqr reaches exactly when there is no split, the length is even, or the default precision suffices by itself |
| Magnitude.Clamp | contrib/pgcrypto/imath.c:2346-2355 | leading zero digits go, the number stays |
| Magnitude.UCmp | contrib/pgcrypto/imath.c:2424-2435 | sign of the difference of two magnitudes |
| Magnitude.CDig | contrib/pgcrypto/imath.c:2378-2392 | sign of the difference of two digit strings of one length |
| Integers.Add | contrib/pgcrypto/imath.c:607-677 | c = a + b for all signs and any aliasing, and which sign a zero gets |
| Integers.Sub | contrib/pgcrypto/imath.c:699-772 | c = a - b for all signs and any aliasing |
| Integers.Mul | contrib/pgcrypto/imath.c:794-859 | c = a * b, and a zero product is positive |
| Integers.Sqr | contrib/pgcrypto/imath.c:901-947 | c = a * a |
| Integers.Compare | contrib/pgcrypto/imath.c:1241-1269 | the comparison is that of the numbers exactly unless both are zero with different signs |
| Integers.Neg | contrib/pgcrypto/imath.c:587-600 | c = -a |
| Shifts.QDiv | contrib/pgcrypto/imath.c:2916-2966 | magnitude divided by 2^p2, rounded down; a zero loses its sign |
| Shifts.QMod | contrib/pgcrypto/imath.c:2973-2986 | magnitude modulo 2^p2 |
| Shifts.QMul | contrib/pgcrypto/imath.c:2993-3067 | magnitude times 2^p2 |
| Shifts.QSub | contrib/pgcrypto/imath.c:3075-3103 | 2^p2 - z, for z below 2^p2 whose used digits reach bit p2 |
| Barrett.GuessIsClose | contrib/pgcrypto/imath.c:3248-3263 | with exact mu the quotient guess is low by at most 2 |
| Barrett.Wraparound | contrib/pgcrypto/imath.c:3256-3273 | a difference below 2^n is recovered from the low n bits of both numbers, adding 2^n when it comes out negative |
| Barrett.Reduce | contrib/pgcrypto/imath.c:3239-3286 | leaves exactly x mod m for every x below B^2k and exact mu |
| ModExp.BitStep | contrib/pgcrypto/imath.c:3315-3376 | one exponent bit: multiply on a one, square always, and the pending power is unchanged |
| ModExp.Embar | contrib/pgcrypto/imath.c:3295-3383 | c = a^b mod m for every multi-digit exponent, exactly unless m = 1 and b = 0 |
| Division.NeverLow | contrib/pgcrypto/imath.c:3446-3458 | the two-digit estimate is never below the quotient digit |
| Division.AtMostTwoHigh | contrib/pgcrypto/imath.c:3446-3458 | nor more than two above it, when the divisor's top bit is set |
| Division.Correct | contrib/pgcrypto/imath.c:3460-3467 | so at most two corrections give a multiple of b that fits under r |
| Division.QuotientDigit | contrib/pgcrypto/imath.c:3446-3467 | the digit pushed is the quotient digit, unless r reaches the divisor's top digit one place up; then it is 1 |
| Division.DivideLoop | contrib/pgcrypto/imath.c:3429-3476 | ends with the remainder in place and the pushed digits spelling the quotient unless some turn stalled, and more than it if one did; without a stall no more digits are pushed than the dividend has |
| Division.Norm | contrib/pgcrypto/imath.c:3197-3216 | both numbers shifted left until the divisor's top bit is set |
| Division.UDiv | contrib/pgcrypto/imath.c:3393-3495 | remainder a mod b for every a >= b > 0; quotient a / b exactly when no turn stalls, otherwise larger |
| Division.StallsIff | contrib/pgcrypto/imath.c:3449-3458 | a turn stalls exactly when some running remainder of the shifted operands reaches the divisor's top digit one place up |
| Division.StallExample | contrib/pgcrypto/imath.c:3449-3458 | operands for which a turn stalls and the quotient is wrong |
| Gcd.BezoutIsGcd | contrib/pgcrypto/imath.c:1747-1765 | a common divisor that is a combination of two numbers is their greatest common divisor |
| Gcd.GcdUnique | contrib/pgcrypto/imath.c:1535-1773 | two greatest common divisors of the same numbers are equal |
| Gcd.ParityRule | contrib/pgcrypto/imath.c:1696-1726 | an odd coefficient can be made even by the other operand, so every halving of a row is exact |
| Gcd.Dp2k | contrib/pgcrypto/imath.c:3110-3133 | the number of factors of two (1 for zero) |
| Gcd.EgcdTurn | contrib/pgcrypto/imath.c:1694-1745 | a turn keeps A*ou+B*ov=u and C*ou+D*ov=v and makes u+v smaller |
| Gcd.EgcdLoop | contrib/pgcrypto/imath.c:1694-1766 | ends with v the greatest common divisor and C, D its coefficients |
| Gcd.Egcd | contrib/pgcrypto/imath.c:1630-1773 | c = gcd(|a|,|b|) = x|a| + y|b|; refused exactly for two zeros |
| SteinGcd.GcdLoop | contrib/pgcrypto/imath.c:1575-1606 | the subtract-and-halve loop ends with the greatest common divisor |
| SteinGcd.GcdOf | contrib/pgcrypto/imath.c:1535-1619 | c = gcd(|a|,|b|); refused exactly for two zeros |
| SteinGcd.BothWays | contrib/pgcrypto/imath.c:1535-1773 | mp_int_gcd and mp_int_egcd give the same number on every input, the gcd of the magnitudes with its coefficients, or both refuse |
| Modular.IsP2 | contrib/pgcrypto/imath.c:3140-3165 | the exponent exactly for powers of two, otherwise -1 |
| Modular.Div | contrib/pgcrypto/imath.c:954-1072 | remainder with the dividend's sign for all operands; quotient right exactly when the long division does not stall |
| Modular.Mod | contrib/pgcrypto/imath.c:1079-1110 | the remainder with the sign of a, moved by the modulus if negative; for m > 0 that is the residue between 0 and m-1 |
| Modular.InvMod | contrib/pgcrypto/imath.c:1480-1527 | succeeds exactly when a is not 0, m > 0 and gcd(a,m)=1, and then a*c = 1 mod m, also for negative a, with c at most m |
| Modular.BrMu | contrib/pgcrypto/imath.c:3223-3232 | the constant is floor(B^2k/m) exactly when its division does not stall |
| Modular.MuExample | contrib/pgcrypto/imath.c:3223-3232 | for the modulus B^2 - B + 1 the division stalls, so its constant is too large |
| Modular.ExptMod | contrib/pgcrypto/imath.c:1335-1381 | a^b mod m for exact mu, exactly unless m = 1 and b = 0; errors for m = 0 and negative exponents |
| Text.DDiv | contrib/pgcrypto/imath.c:2883-2909 | quotient and remainder by one digit |
| Text.DMul | contrib/pgcrypto/imath.c:2835-2854 | times one digit |
| Text.DAdd | contrib/pgcrypto/imath.c:2805-2828 | plus one digit |
| Text.CharRoundTrip | contrib/pgcrypto/imath.c:3532-3566 | a digit's character, either case, is read back as that digit |
| Text.CharIff | contrib/pgcrypto/imath.c:3532-3566 | a character is read as a digit exactly when it is one of the two written for it |
| Text.SpellValue | contrib/pgcrypto/imath.c:1931-1941 | the digits generated for a number spell that number |
| Text.NoLeadingZero | contrib/pgcrypto/imath.c:1931-1941 | and do not start with 0 |
| Text.TextCase | contrib/pgcrypto/imath.c:3550-3566 | every letter of a text is of the case asked for, and only a leading minus is no digit |
| Text.ToString | contrib/pgcrypto/imath.c:1900-1961 | the number's text, with MP_OK exactly when it and the terminator fit the limit |
| Text.ReadString | contrib/pgcrypto/imath.c:2003-2065 | the number of the leading run of digits after spaces and sign, MP_OK exactly when nothing is left; a zero is positive |
| Text.PlusIgnored | contrib/pgcrypto/imath.c:2016-2028 | a plus before a run of digits changes nothing |
| Text.SpaceIgnored | contrib/pgcrypto/imath.c:2012-2014 | white space in front changes nothing |
| Text.TrailingNoticed | contrib/pgcrypto/imath.c:2040-2064 | a character that is no digit ends the number and shows in the result |
| Text.TextRoundTrip | contrib/pgcrypto/imath.c:1900-2065 | for every number and radix 2 to 36, reading its text gives it back and reads all of it |
| Text.Reread | contrib/pgcrypto/imath.c:1900-2065 | writing any number as text and reading it gives that number, exactly when the text fits |
| Binary.TwosComplement | contrib/pgcrypto/imath.c:3573-3590 | in place, the bytes of 2^8n minus the number, or of 0 |
| Binary.ComplementTwice | contrib/pgcrypto/imath.c:3573-3590 | taking the complement twice restores the buffer |
| Binary.ToBytes | contrib/pgcrypto/imath.c:3597-3626 | the bytes without leading zeros, cut exactly when they exceed the limit |
| Binary.PaddedLength | contrib/pgcrypto/imath.c:3597-3643 | the bytes are as many as the signed number needs, and no more |
| Binary.ToBinary | contrib/pgcrypto/imath.c:2102-2117 | the two's complement of every signed number; MP_OK exactly when its padded bytes fit |
| Binary.ReadBinary | contrib/pgcrypto/imath.c:2124-2162 | the signed number the bytes stand for, and the input buffer as it was |
| Binary.Reread | contrib/pgcrypto/imath.c:2102-2162 | writing any signed number as bytes and reading them gives that number, exactly when they fit |
| AlertSpec.WithoutUsed | contrib/orafce/alert.c:276-298 | removing a receiver removes that one and no other |
| AlertSpec.ConsumeKeeps | contrib/orafce/alert.c:349-378 | consuming an echo keeps every invariant of the protocol |
| AlertSpec.EchoLive | contrib/orafce/alert.c:346-400 | an echo's message and event slot are live, and its session did not consume it before |
| AlertSpec.DrainRemoves | contrib/orafce/alert.c:312-405 | filtering and removing all takes away exactly the echoes of one event, in order, and delivers nothing |
| AlertSpec.DrainOne | contrib/orafce/alert.c:312-405 | waiting for one event delivers its oldest message and drops all older ones of other events |
| AlertSpec.DrainAny | contrib/orafce/alert.c:312-405 | waiting for any event delivers the oldest message, records it as consumed, and leaves the others in order |
| AlertSpec.DrainOnlyReads | contrib/orafce/alert.c:312-405 | reading touches no other session's echoes and no registration |
| AlertSteps.RoomExact | contrib/orafce/alert.c:201-232 | the array of receivers outgrows its unsigned char length exactly when a 241st receiver registers |
| AlertSteps.RegisterKeeps | contrib/orafce/alert.c:178-233 | registering keeps every invariant, also when a table is full |
| AlertSteps.UnregisterKeeps | contrib/orafce/alert.c:241-266 | unregistering keeps them once no message of the event waits for the session, and frees an event without receivers |
| AlertSteps.RegisterAdds | contrib/orafce/alert.c:178-233 | a successful registration adds the session to that event and changes no other; a refused one changes none |
| AlertSteps.RemoveDrops | contrib/orafce/alert.c:557-583 | removing takes the session off that event, and no other session and no other event |
| AlertSteps.ReadKeepsNames | contrib/orafce/alert.c:312-405 | reading changes no registration |
| AlertSteps.ReadAway | contrib/orafce/alert.c:570-576 | after reading an event's messages away none of them waits for the session |
| AlertSteps.SignalKeeps | contrib/orafce/alert.c:412-501 | signalling keeps every invariant, and queues no second message of the same text |
| AlertSteps.RunKeeps | contrib/orafce/alert.c:178-501 | every run keeps the invariant, and what was sent or consumed is never taken back |
| AlertSteps.Reachable | contrib/orafce/alert.c:178-501 | in every reachable state a session has an echo for a message exactly if it is an unconsumed receiver, and a message is linked in its event, which is not freed, exactly if a receiver remains |
| AlertSteps.ReachesEachOnce | contrib/orafce/alert.c:412-501 | after any run, those registered when a message was signalled, and only they, have consumed it or wait for it, and not both |
| AlertSteps.AtMostOnce | contrib/orafce/alert.c:312-405 | what a session consumed is never offered to it again |
| AlertLaws.SignalLaw | contrib/orafce/alert.c:412-501 | a signal posts one message, for exactly the registered sessions and with one more echo at the end of each of their lists, exactly when somebody is registered and no message of that event and text is pending; otherwise it changes nothing |
| AlertLaws.SignalReaches | contrib/orafce/alert.c:412-501 | then after any run each registered session, and nobody else, has consumed that message or waits for it, and not both |
| AlertLaws.SignalKeepsNames | contrib/orafce/alert.c:412-501 | signalling changes no registration |
| AlertLaws.WaitAnyLaw | contrib/orafce/alert.c:637-663 | the session's oldest message is delivered and consumed, its other messages and all other sessions stay; without one nothing changes |
| AlertLaws.WaitOneLaw | contrib/orafce/alert.c:698-741 | the oldest message of the event is delivered, it and all older ones are gone; all are gone without one, and nothing changes if nobody is registered for the event |
| AlertLaws.RegisterStatus | contrib/orafce/alert.c:178-233 | registering succeeds exactly when there are a lock and an event slot for it, and says which is missing |
| AlertLaws.RegisterLaw | contrib/orafce/alert.c:178-233 | it then adds the session to that event and to no other |
| AlertLaws.RegisterKeepsEchoes | contrib/orafce/alert.c:178-233 | and changes nothing that waits for anybody |
| AlertLaws.RemoveLaw | contrib/orafce/alert.c:557-583 | removing takes the session off that event and no other |
| AlertLaws.RemoveAllLaw | contrib/orafce/alert.c:595-619 | after removing all the session is registered for no event and nothing waits for it; other sessions stay registered |
| Alert.Tables.MakeLock | contrib/orafce/alert.c:95-129 | find_lock with create, as one scan that remembers the first unused lock |
| Alert.Tables.MakeEvent | contrib/orafce/alert.c:133-174 | find_event with create |
| Alert.Tables.RegisterEvent | contrib/orafce/alert.c:178-233 | takes the registration step, for events of fewer than 240 receivers or a session that is one, and says exactly which of lock and slot is missing |
| Alert.Tables.UnregisterEvent | contrib/orafce/alert.c:241-266 | takes the unregistration step |
| Alert.Tables.RemoveReceiver | contrib/orafce/alert.c:276-298 | clears the session's entry and says whether anyone else is left |
| Alert.Tables.TakeEcho | contrib/orafce/alert.c:349-378 | unlinks an echo, and its message when nobody else waits for it |
| Alert.Tables.FindAndRemove | contrib/orafce/alert.c:312-405 | all modes of reading, with the step back after each removal |
| Alert.Tables.CreateMessage | contrib/orafce/alert.c:412-501 | posts one message and one echo for each registered session exactly when somebody is registered and no such message is pending, and otherwise changes nothing |
| Alert.Tables.RemoveEvent | contrib/orafce/alert.c:557-583 | takes the removal step of one event: the session is off it |
| Alert.Tables.RemoveAll | contrib/orafce/alert.c:595-619 | takes the removal step of all events: nothing waits for the session |
| Alert.Tables.WaitAny | contrib/orafce/alert.c:637-663 | one turn of waiting: the oldest message of any event, or nothing |
| Alert.Tables.WaitOne | contrib/orafce/alert.c:698-741 | one turn of waiting: the oldest message of the event asked for, with all older ones gone |
| Allocator.AlignSize | contrib/orafce/shmmc.c:135-152 | the smallest size class that fits, 0 exactly above the largest |
| Allocator.Shm.Defragment | contrib/orafce/shmmc.c:107-132 | sorts the slots and merges neighbouring free ones: the table becomes the merged tiling |
| Slots.MergeTiles | contrib/orafce/shmmc.c:107-132 | merging keeps the tiling of the region |
| Slots.MergeLive | contrib/orafce/shmmc.c:107-132 | merging keeps exactly the allocated blocks |
| Slots.MergeFreeBytes | contrib/orafce/shmmc.c:107-132 | merging keeps the number of free bytes |
| Slots.MergeNoFreeNeighbours | contrib/orafce/shmmc.c:107-132 | after merging no two neighbouring slots are free |
| Allocator.Shm.Salloc | contrib/orafce/shmmc.c:182-242 | a block exactly when after merging a slot fits exactly, or one is larger and the 512-slot table has room; the smallest fitting slot of its scan is taken |
| Allocator.Shm.Sfree | contrib/orafce/shmmc.c:245-274 | frees the slot with that address and wipes its bytes and no others; an error for an unknown address |
| Allocator.Shm.Srealloc | contrib/orafce/shmmc.c:278-307 | the old block when it is large enough, else a new disjoint block with the old bytes and the old block freed; NULL only when no block can be had; an error exactly for an unknown address or a size above the largest class |
| Allocator.AllocEffect | contrib/orafce/shmmc.c:182-242 | an allocation adds one block, large enough and disjoint from all others, and keeps the tiling |
| Allocator.FreeEffect | contrib/orafce/shmmc.c:245-274 | a free removes one block and keeps the tiling |
| AllocatorRuns.RunTiled | contrib/orafce/shmmc.c:107-307 | in every state of every run the slots tile the region |
| AllocatorRuns.RunKeeps | contrib/orafce/shmmc.c:107-307 | a block keeps its place and bytes through every run that does not free, resize or write it |
| AllocatorRuns.RunDisjoint | contrib/orafce/shmmc.c:107-307 | in every state of every run allocated blocks are disjoint and inside the region |
| AllocatorRuns.RunLarge | contrib/orafce/shmmc.c:182-307 | in every state of every run the live blocks are exactly those returned and not freed since, each with at least the bytes last asked for it |
| AllocatorRuns.DoAlloc | contrib/orafce/shmmc.c:182-242 | ora_salloc takes the step of a run that goes with its size and result, and a block it returns is new, live and large enough |
| AllocatorRuns.DoFree | contrib/orafce/shmmc.c:245-274 | ora_sfree takes such a step |
| AllocatorRuns.DoRealloc | contrib/orafce/shmmc.c:278-307 | ora_srealloc takes the step that goes with its size and result, and what it returns is live, large enough and in place of the old block |
| PipeSpec.AddQueue | contrib/orafce/pipe.c:439-487 | a message sent is last in its queue; otherwise no queue changes, whatever allocation fails |
| PipeSpec.AddOutcome | contrib/orafce/pipe.c:439-487 | a message is sent exactly when the caller may use the pipe, memory suffices and fewer messages wait than the limit in force, or a new pipe can be had and takes one |
| PipeSpec.GetQueue | contrib/orafce/pipe.c:403-431 | a message received was first in its queue; otherwise no queue changes, and nothing is received from a permitted pipe only when its queue is empty |
| PipeSpec.RemoveQueue | contrib/orafce/pipe.c:491-518 | removing or purging empties that queue and no other |
| PipeSpec.CreateQueue | contrib/orafce/pipe.c:1031-1096 | creating shows no messages and hides none |
| PipeLaws.CreateLaw | contrib/orafce/pipe.c:1031-1096 | a pipe is created exactly when none of that name is in use, a slot is free and the name fits; it is registered, empty, has the limit given and belongs to its creator if private; no other pipe changes |
| PipeLaws.CreatedFor | contrib/orafce/pipe.c:285-305 | a private pipe may be used by its creator only, a public one by all, and it takes messages unless its limit forbids |
| PipeLaws.CreatedBeside | contrib/orafce/pipe.c:1031-1096 | who may use the other pipes and what they admit stays, but for the slot taken |
| PipeLaws.AddLaw | contrib/orafce/pipe.c:439-487 | what sending leaves: limit raised, message last, owner and registration kept; a new pipe is public, and goes again when nothing was sent |
| PipeLaws.GetLaw | contrib/orafce/pipe.c:403-431 | what receiving leaves: the pipe stays exactly if it is registered or still holds something; a missing one is opened |
| PipeLaws.RemoveLaw | contrib/orafce/pipe.c:491-518 | removing ends the pipe, purging keeps it exactly if it is registered |
| PipeSpec.Fifo | contrib/orafce/pipe.c:285-518 | in every run, what was in a pipe and what came in equals, in order, what left it and what waits |
| PipeSpec.FromZero | contrib/orafce/pipe.c:285-518 | from a zeroed table every reachable pipe has count = queue length and size = sum of message sizes |
| Pipes.Table.FindPipe | contrib/orafce/pipe.c:285-334 | the pipe of that name, a denied one, a new one in the first unused slot, or none |
| Pipes.Table.NewLast | contrib/orafce/pipe.c:338-369 | appends exactly when the limit and memory allow |
| Pipes.Table.RemoveFirst | contrib/orafce/pipe.c:373-397 | takes the first message, and drops an unregistered pipe that is empty |
| Pipes.Table.AddToPipe | contrib/orafce/pipe.c:439-487 | takes the sending step for every outcome of its three allocations |
| Pipes.Table.GetFromPipe | contrib/orafce/pipe.c:403-431 | takes the receiving step |
| Pipes.Table.RemovePipe | contrib/orafce/pipe.c:491-518 | takes the removing step |
| Pipes.Table.CreatePipe | contrib/orafce/pipe.c:1031-1096 | takes the creating step: when it succeeds, and the owner, limit and registration of the new pipe |
| Packing.ItemLaidOut | contrib/orafce/pipe.c:150-203 | reading where an item was laid out gives its type, tuple type and bytes |
| Packing.PutAt | contrib/orafce/pipe.c:150-180 | the header words lie lowest byte first, the order of a little-endian machine |
| Packing.OutBuffer.Pack | contrib/orafce/pipe.c:150-180 | appends the item's layout, refused exactly when it does not fit the local buffer, and then unchanged |
| Packing.OutBuffer.Copy | contrib/orafce/pipe.c:461-463 | the bytes sent are the layout of the packed items |
| Packing.InBuffer.UnpackField | contrib/orafce/pipe.c:184-203 | gives the first item left and moves to the next |
| Packing.InBuffer.Unpack | contrib/orafce/pipe.c:660-683 | nothing exactly when no item is left, an error exactly on another type, else the item |
| Packing.UnpackAll | contrib/orafce/pipe.c:184-203 | unpacking to the end gives all items in order |
| Transfer.PackAll | contrib/orafce/pipe.c:150-180 | a sequence of items fits exactly when its layout does |
| Transfer.Send | contrib/orafce/pipe.c:439-487 | items are sent exactly when they fit one message and the pipe admits it, which is then last in its queue with those items packed; otherwise no queue of that name changes |
| Transfer.Receive | contrib/orafce/pipe.c:403-434 | the items of the message that waited longest, exactly when one waits and the caller may use the pipe; the others stay in order |
| Transfer.SendReceive | contrib/orafce/pipe.c:150-487 | whatever already waits: who may send may receive, and gets the items of the message that waited longest |
| Transfer.Play | contrib/orafce/pipe.c:285-518 | any sequence of operations on the table is the run of the state machine |
| Transfer.InOrder | contrib/orafce/pipe.c:285-518 | in every run from the zeroed table the i-th message to leave a pipe is packed from the items of the i-th to enter it, and what waits from the ones after |
| Transfer.Deliver | contrib/orafce/pipe.c:150-518 | all that left a pipe in any such run unpacks to the items that were packed, types and bytes, in order |
| CfbSpec.DecryptedEncrypted | contrib/pgcrypto/pgp-cfb.c:96-245 | for every cipher and message the decryption of the encryption is the message |
| CfbSpec.XorSelfInverse | contrib/pgcrypto/pgp-cfb.c:96-193 | exclusive or, as the code mixes, has the one property of mixing that is used |
| CfbSpec.EncryptedAt | contrib/pgcrypto/pgp-cfb.c:96-193 | ciphertext byte t is the plaintext byte mixed with its byte of the enciphered last block_size ciphertext bytes before its block |
| CfbSpec.DecryptedAt | contrib/pgcrypto/pgp-cfb.c:96-193 | and plaintext byte t in the same way |
| CfbSpec.StartMultiple | contrib/pgcrypto/pgp-cfb.c:127-156 | blocks start at multiples of the block size, in resync mode after one block, two bytes more, and every block size from there |
| Bytes.XorAt | contrib/pgcrypto/pgp-cfb.c:96-193 | exclusive or, bit by bit |
| CfbSpec.FeedCut | contrib/pgcrypto/pgp-cfb.c:199-245 | feeding two stretches leaves the registers as feeding them joined |
| CfbSpec.FeedCutOut | contrib/pgcrypto/pgp-cfb.c:199-245 | and puts out the same bytes |
| CfbProof.StepTracks | contrib/pgcrypto/pgp-cfb.c:96-245 | after every byte the registers are those of the ciphertext so far |
| CfbProof.FeedEncrypts | contrib/pgcrypto/pgp-cfb.c:199-245 | fed with more plaintext, the register machine puts out the next part of the one ciphertext |
| CfbProof.FeedDecrypts | contrib/pgcrypto/pgp-cfb.c:199-245 | fed with more ciphertext, it puts out the next part of the plaintext |
| CfbProof.FeedbackAtBoundary | contrib/pgcrypto/pgp-cfb.c:144-150 | at every block boundary, also after the two-byte block, the register holds the last block_size ciphertext bytes |
| Cfb.Context.MixShort | contrib/pgcrypto/pgp-cfb.c:127-156 | the two-byte block: what is mixed, when the register is shifted, and when 0 is returned although a byte was taken |
| Cfb.Context.Turn | contrib/pgcrypto/pgp-cfb.c:96-193 | one call of a mixing function and the end-of-block test |
| Cfb.Context.Process | contrib/pgcrypto/pgp-cfb.c:199-245 | equals the byte-by-byte machine, unless the call ends one byte into the two-byte block; then the last byte is taken twice and put out with the second key byte, and the registers are those after that |
| Cfb.Context.Encrypt | contrib/pgcrypto/pgp-cfb.c:252-257 | however the plaintext is cut into calls the output is the next part of one ciphertext; in a failing call that holds of all bytes but the last, whose key byte is told |
| Cfb.Context.Decrypt | contrib/pgcrypto/pgp-cfb.c:260-265 | the same for decryption |
| Cfb.InsideIff | contrib/pgcrypto/pgp-cfb.c:133-155 | a call fails in that way exactly when after it one byte more than a block was processed in resync mode |
| Cfb.SlipWrong | contrib/pgcrypto/pgp-cfb.c:133-155 | its last byte is then right exactly when the two key bytes are equal |
| Cfb.SlipExample | contrib/pgcrypto/pgp-cfb.c:133-155 | a cipher for which it is wrong whatever the data |
| Cfb.EncryptAll | contrib/pgcrypto/pgp-cfb.c:199-257 | over any calls none of which fails in that way, the one ciphertext of the joined pieces |
| Cfb.DecryptAll | contrib/pgcrypto/pgp-cfb.c:199-265 | and the one plaintext |
| Cfb.ThereAndBack | contrib/pgcrypto/pgp-cfb.c:199-265 | encrypted under one cutting and decrypted under another, the stream comes back |
| DesTables.Mask | contrib/pgcrypto/crypt-des.c:294-351 | an OR-mask entry built bit by bit is the permutation of that group of bits |
| DesTables.FillTable | contrib/pgcrypto/crypt-des.c:294-369 | the table holds for every group and every value of the group the mask of its bits |
| Des.Init | contrib/pgcrypto/crypt-des.c:223-372 | all tables of des_init: the inverted permutations, the masks made from them, and the paired S-boxes |
| DesTables.ReadScatters | contrib/pgcrypto/crypt-des.c:430-445 | the masks read at the groups of a word, combined, move its bits to their places, also where bits are dropped |
| DesTables.ReadSelects | contrib/pgcrypto/crypt-des.c:456-479 | by way of the inverted table that is the bit selection of the standard |
| DesTables.PairRead | contrib/pgcrypto/crypt-des.c:241-261 | an entry of the paired boxes is what the two boxes give on its twelve bits |
| DesTables.Invert | contrib/pgcrypto/crypt-des.c:263-288 | the inverted table sends every selected bit to its place and all others past the end |
| DesBits.ScatterSelects | contrib/pgcrypto/crypt-des.c:263-288 | moving bits to the places of the inverted table is the selection by the table itself |
| Des.PermuteKey | contrib/pgcrypto/crypt-des.c:422-445 | the key permutation read a byte at a time without parity bits is the selection by the standard's table |
| Des.CompressKey | contrib/pgcrypto/crypt-des.c:456-479 | the round key read seven bits at a time is the compression of the rotated halves |
| Des.Mangle | contrib/pgcrypto/crypt-des.c:549-582 | the round function read out of both S-box tables, bit by bit: E with the salt's exchanges, key, S-box row and column, P |
| DesSpec.ExpandSelects | contrib/pgcrypto/crypt-des.c:554-564 | the masks and shifts are the E bit selection of FIPS 46-3 |
| DesSpec.KeyedBits | contrib/pgcrypto/crypt-des.c:554-572 | every bit that enters the S-boxes: a set salt bit exchanges the two expanded bits, then the key bit is mixed in |
| DesSpec.FBits | contrib/pgcrypto/crypt-des.c:549-582 | every bit of the round function: the S-box bit that P selects, of the entry that row and column point to |
| DesSpec.IpTable | contrib/pgcrypto/crypt-des.c:75-80 | the initial permutation is the standard's table |
| DesSpec.CryptTrace | contrib/pgcrypto/crypt-des.c:485-614 | the words the halves run through: each is the round function of the one before mixed with the one before that, the halves change places after each pass, IP on both ends |
| Des.ScheduleBits | contrib/pgcrypto/crypt-des.c:447-479 | every bit of every round key is the key bit that both tables and the turns up to that round select |
| DesSpec.RoundBack | contrib/pgcrypto/crypt-des.c:549-591 | a round undoes itself on swapped halves, for every round function and key |
| DesSpec.PermsInverse | contrib/pgcrypto/crypt-des.c:267-271 | the initial and final permutations are inverse |
| DesSpec.CryptBack | contrib/pgcrypto/crypt-des.c:485-614 | n passes with the keys reversed undo n passes, for every block, key schedule and round function |
| Des.State.SetupSalt | contrib/pgcrypto/crypt-des.c:375-395 | bit i of the salt bits is bit i of the salt, computed or kept |
| Des.State.SetKey | contrib/pgcrypto/crypt-des.c:398-482 | both schedules are those of the key, computed or kept, also for the zero key |
| Des.State.DoDes | contrib/pgcrypto/crypt-des.c:485-614 | count passes forward or backward, refused exactly for 0 |
| Des.ThereAndBack | contrib/pgcrypto/crypt-des.c:485-614 | do_des with count -n undoes do_des with count n, for every block, key, salt and nonzero n, and what lies between is the standard's block for the key's schedule and the salt |
| Mbuf.MBuf.PrepareRoom | contrib/pgcrypto/mbuf.c:80-99 | the buffer has room for the block and its contents are unchanged |
| Mbuf.MBuf.Append | contrib/pgcrypto/mbuf.c:102-116 | appends, refused exactly after something was taken out |
| Mbuf.MBuf.Grab | contrib/pgcrypto/mbuf.c:157-167 | the next bytes, at most as many as there are |
| Mbuf.Chain.Wrap | contrib/pgcrypto/mbuf.c:440-451 | what a filter hands on is what the chain below it gains |
| Mbuf.Chain.Write | contrib/pgcrypto/mbuf.c:455-512 | bytes delivered plus bytes held grow by exactly the data, in order, and every hand-on of a buffering filter is one block |
| Mbuf.Chain.Flush | contrib/pgcrypto/mbuf.c:515-538 | the buffer then holds all that was delivered and held |
| Mbuf.PushAll | contrib/pgcrypto/mbuf.c:440-553 | any writes through any chain, then a flush: the buffer holds their concatenation |
| Md5.Context.Loop | contrib/pgcrypto/md5.c:150-174 | the state has taken all whole blocks of what was hashed and the buffer holds the rest, however it was cut |
| Md5.Context.Pad | contrib/pgcrypto/md5.c:177-212 | the state is the digest of the padded message, whose last eight bytes are the count from the lowest byte up |
| Md5.LowAt | contrib/pgcrypto/md5.c:197-209 | byte i of the count is the count divided by 256^i, modulo 256 |
| Md5.PaddedShape | contrib/pgcrypto/md5.c:177-212 | the padded message byte by byte, in whole blocks and no more than needed |
| Md5.DigestFolds | contrib/pgcrypto/md5.c:150-174 | the digest is the last of the states that the blocks lead through one by one |
| Md5.CounterExact | contrib/pgcrypto/md5.c:155-155 | the bit counter is right exactly for calls shorter than 2^29 bytes |
| Md5.Hash | contrib/pgcrypto/md5.c:138-212 | for any cutting into such calls the result is the last state of the blocks of the message padded as sections 3.1 and 3.2 of RFC 1321 say |
| Blowfish.CipherBack | contrib/pgcrypto/blf.c:253-318 | the rounds with reversed subkeys undo the cipher, for any S-boxes and subkeys |
| Blowfish.Encrypt | contrib/pgcrypto/blf.c:253-284 | sixteen rounds: each word is the S-box function of the one before, mixed with the one before that and a subkey |
| Blowfish.Decrypt | contrib/pgcrypto/blf.c:287-318 | the same with the subkeys reversed |
| Blowfish.CipherWords | contrib/pgcrypto/blf.c:253-318 | the words a block runs through, for any number of subkeys |
| Blowfish.UnchainedChained | contrib/pgcrypto/blf.c:321-384 | unchaining undoes chaining for any number of blocks |
| Blowfish.ChainedBlocks | contrib/pgcrypto/blf.c:321-351 | each ciphertext block is the enciphered mix of a block and the ciphertext before it |
| Blowfish.UnchainedBlocks | contrib/pgcrypto/blf.c:354-384 | each data block is the deciphered block mixed with the ciphertext before it |
| Blowfish.ChainedCut | contrib/pgcrypto/blf.c:321-351 | where the data is cut into calls does not matter |
| Blowfish.UnchainedCut | contrib/pgcrypto/blf.c:354-384 | nor where it is cut for decryption |
| Blowfish.Context.EncryptCbc | contrib/pgcrypto/blf.c:321-351 | in place, the chained ciphertext, and its last block as the chaining value |
| Blowfish.Context.DecryptCbc | contrib/pgcrypto/blf.c:354-384 | in place, the unchained data, and the last ciphertext block as the chaining value |
| Blowfish.EncryptAll | contrib/pgcrypto/blf.c:321-351 | over any calls, the chained ciphertext of the joined pieces and its last block |
| Blowfish.DecryptAll | contrib/pgcrypto/blf.c:354-384 | over any calls, the unchained data of the joined pieces |
| Blowfish.ThereAndBack | contrib/pgcrypto/blf.c:321-384 | encrypted over any calls and decrypted over any others, the data comes back and both leave the same chaining value |

## Left out

- Karatsuba.KMul: takes an output buffer as long as the final additions reach, up to two digits past the longer operand doubled
- Integers.Mul: works in a buffer as long as s_kmul reaches; which operands the code provides that much for is `Karatsuba.RoomIff`
- Integers.Sqr: the same for s_ksqr, with `Squaring.SqrRoomIff`
- Karatsuba.KMul: requires a threshold of 0 or at least 4, because below that the recursion need not end (`Karatsuba.ShrinksIff`)
- Modular.ExptMod: requires a nonnegative modulus and a reduction constant whose division does not stall; mp_int_exptmod checks neither
- Allocator.Shm.Srealloc: requires that the address does not name a free slot, which the code would resize as if it were allocated
- Cfb.ThereAndBack: requires cuttings without a call that ends one byte into the two-byte block; what such a call does is stated in `Cfb.Context.Process`
- Gcd.Egcd: requires both coefficient pointers when an operand is zero, as the code dereferences them there
- Shifts.QDiv: the sign is kept as a flag; division of a negative number rounds the magnitude, as in the code
- Cfb.Context.Process: the registers and the output are byte sequences reassigned by the loops, not arrays, so an output buffer that overlaps the input is not captured
- Alert.Tables.RegisterEvent: requires fewer than 240 receivers or a registered session; beyond that the code writes outside its array
- Binary.ToBinary: requires a limit of at least 1, since the code reads the byte before the buffer otherwise
- Mbuf.Chain.Write: filters hand on what they get; transforming push callbacks and errors they return are not modelled
- mp_int_init, mp_int_alloc, s_pad, s_alloc: digit sequences grow as needed, so memory errors, `alloc` and 32-bit sizes have no counterpart
- s_inlen and s_outlen: the floating-point length estimates are taken to be large enough
- mp_int_sqrt: its stopping test does not give the square root for all inputs
- mp_int_expt, the *_value variants, mp_int_to_int, mp_int_read_unsigned: short combinations of what is modelled
- Allocator and alert linked lists: message, echo and queue lists are sequences; link surgery node by node is not shown
- qsort in defragmentation: modelled as sorting by address
- ora_sinit's address arithmetic, LWLocks, waiting with timeouts, SPI and trigger glue
- allocation failure in the middle of an alert operation: each locked section is one step that has its memory
- session ids: alert.c reads the session id as an unsigned char, pipe.c keeps it as an unsigned int; a session is named by one number here
- the session_lock cache of alert.c: a session's lock is looked up in the table, which is where the cached pointer leads
- int16 queue counts and limits of pipes: unbounded here; the 30 kB region keeps queues far shorter
- dbms_pipe_pack_message_record and the conversions of item values to and from SQL types
- S-box, P-array, permutation-choice and MD5 constants, md5_calc: parameters, except the initial permutation of DES, which is written as a formula; a pair of masks for the left and the right word is one mask of both
- 32-bit words of DES and Blowfish are bit strings; packing them into bytes is not modelled
- pull filters, mbuf_steal_data, mbuf_create_from_data: reading side and ownership transfer
- px_crypt_des and bcrypt setting strings and cost loops
