# Verification of TVA's oblivious core

TVA runs analytics on secret-shared vectors. This project models the part of it on which every query rests, in Dafny,
and proves what the results open to:

* the two replicated secret-sharing protocols, as the joint state of all computing parties and the messages between
  them: three semi-honest parties and four parties of which one may send anything;
* the log-depth circuits over Boolean shares (`==`, `>`, the fused comparison of the sort, the parallel-prefix adder,
  the packed ripple-carry adder), for every word width L = 2^k with k >= 2;
* conversions between arithmetic and Boolean sharings and division by a public constant;
* the oblivious bitonic sort through index views, the group scans, and the session windows built on them;
* the division of vector operations among threads and batches, and the lock hand-off between the main thread and the
  workers;
* straight-line programs over shared registers, as the end-to-end statement about all element operations.

## How the model is built

A *joint sharing* (`Sharing.Joint`) is what all parties hold together: `x[i][c]` is share `c` of party `i`. A sharing
is `Replicated` when all copies of each component agree. `SecretA` and `SecretB` give the secret of an arithmetic
sharing (the sum of its components modulo 2^L) and of a Boolean one (their XOR). A machine word is its bit sequence,
least significant bit first, with an unsigned and a two's-complement value. A protocol operation is a step of all
parties; its contract says that the result is a consistent sharing and what it opens to. Since opening gives every
party the secret (`OpenAGivesSecret`, `OpenBGivesSecret`), the later modules speak about secrets. Where the source
updates columns in place, the model does so on arrays of sharings, through the same chains of index views.

Random draws are parameters, constrained by what correctness needs: three masks of a product that cancel, or
four-party draws on which the holders agree. In the repository all generator streams start from the same seed and
every mask is zero, which is one instance. The draws for dealing are arbitrary, here as in the shipped configuration,
where `include/debug/debug.h:4` defines `MPC_USE_RANDOM_GENERATOR_TRIPLES`; without that definition they are zero too.
One more condition is needed for three parties: the masks of those ANDs whose results are afterwards extended or
negated share by share have to be single bits (`BitMask`). These are the last two ANDs of a comparison (`OrderMasks`),
the AND of a later sort key with the keys before it (`KeyMasks`), the AND that completes the group bits of a maximum
or minimum (`GroupsControl`), and the AND of a threshold crossing. All other masks only have to cancel; sums need none
of this, because `b2a_bit` reads the low bit only. `Pitfalls.MasksReachExtension` says exactly which cancelling masks
an extension tolerates, and `Pitfalls.ComparisonMaskMisses` gives masks that it does not. Boolean operations that work
share by share and are meant for single bits carry `SingleBit`, or the exact conditions `Extendable` and `Negatable`
on the shares.

The products of four parties are their message exchange (`Fantastic4PC.Run`), from which `AndB` and `MulA` take their
results.

Operations on vectors act element by element. The circuits are therefore modelled for one element, except where
elements interact (packing, sorting, scans, windows), and `Batching` shows that running an elementwise operation in
batches on several threads is running it on the whole vector.

Operations are specified by functions (`RowOrder`, `Latest`, `Evaluate`, ...), and for each main result a law in plain
terms of opened values says what these functions come to: `KeysInOrder` and `RowsMoved` for the sort,
`GapLaw` and `ThresholdLaw` for the session windows, `GroupSumsMean`, `GroupExtremesMean` and `SelectedSums` for the
aggregations, `EvaluateAppend` and `OneOnNumbers` to `OneConversion` for programs, `RedistributionMeans` and
`TimesOpensNumber` for the robust programs, `AllReady`, `ExactlyOnce` and `AllJoined` for the runtime.

The modules, from the bottom up: `Arith`, `Words`, `VectorBits`, `Packing` (integers, machine words, bit methods);
`Ring`, `Algebra`, `Sharing`, `Replicated3PC`, `Fantastic4PC`, `JointInput`, `Robustness`, `Arithmetic`, `Products`,
`Boolean`, `Inputs` (sharings and protocols); `Circuits`, `Adders`, `RippleCarry` (circuits); `Division`,
`Conversions`, `SecureDivision`, `RobustConversions`, `RobustMeaning`; `Multiplexing`, `BitVectors`, `Programs`;
`Views`, `Columns`, `Permutations`, `Bitonic`, `SortViews`, `Rows`, `Tables`, `Sorting`, `BitonicSort` (sort);
`Scans`, `GroupMeaning`, `Hops`, `Aggregation`, `OddEvenAggregation`, `SelectedGroups` (group scans);
`SessionWindows`, `WindowLaws`, `Streaming`; `Batching`, `Runtime`; `Pitfalls` (inputs on which unchecked assumptions
fail).

## What the code does that its comments do not say

* `set_bits` ORs the mask into every share. It sets the opened bits only when the number of components is odd; with
  four parties it clears them. `operator>` computes the affected vector but does not use it, so it is correct for
  three and four parties; the fused `compare` of the sort does use it, and with four parties it treats words that
  differ in one of their two top bits as equal (`Circuits.Compare`; `Pitfalls.FourPartyCompareMisses`, on 64 and 0).
* In `multiply_a` and `and_b` of four parties the second-round masks `r_2_*` must all be zero and the first-round masks
  must agree; with any other draws either a check fails or the copies of a component differ
  (`Fantastic4PC.MasksMustAgree`; `Pitfalls.OneSecondMaskMisses`, `Pitfalls.EqualSecondMasksMiss`).
* `div` works on the two parts of the dividend, read as signed numbers, and is the floor of the quotient of their sum
  except that it is one less when both parts are negative multiples of the divisor. This is the floor of secret / c
  exactly when not both parts are negative multiples and either their sum does not overflow or c is 1. With three
  parties the first part can also be so low that subtracting the divisor from it overflows; then the result is the
  floor exactly under another condition, on the remainders of the parts (`SecureDivision.DivisionExact`,
  `SecureDivision.DivExactness`). Dealing shares with arbitrary draws, as the shipped configuration does, can reach
  all these cases, and overflows for secrets that are not negative too; the wrong results that
  `tests/test_count_wrong_div.cpp` counts are of these kinds. In 8 bits, -8 by 2 can give -5, -56 by 2 can give 100,
  56 by 3 can give -67, and -90 by 100 can give 1 (`Pitfalls.NegativeMultiplesMiss`, `OverflowMisses`,
  `NegativeOverflowMisses`, `UnderflowMisses`).
* `extend_lsb` negates every share. The result is the low bit of the secret in all positions exactly when the shares
  are `Extendable`: for a shared bit, when at every position above the lowest and below the sign an even number of
  components has its lowest set bit (`Boolean.ExtendLsb`, `Boolean.ExtendableBit`). Single-bit shares always are; other
  shares may be (2 ^ 2 ^ 1, `Pitfalls.WideButExtendable`) or not (3 ^ 2 ^ 0, `Pitfalls.ExtendLsbMisses`).
* `odd_even_aggregation` without keys uses a shared constant one as control bit without masking its shares. Sums are
  right for any sharing of it; `multiplex`, and so maxima and minima, select rightly for all operands exactly when its
  shares are `Extendable` (`Multiplexing.MultiplexExactly`, `Pitfalls.KeylessMaximumMisses`). Zero draws share it
  as 0 ^ 0 ^ 1, which is; the draws of the shipped configuration, with `MPC_USE_RANDOM_GENERATOR_TRIPLES`, need not be,
  so keyless maxima and minima can go wrong there.
* Opening is not checked: a party of four reconstructs the secret exactly when it receives the component that it
  lacks (`Boolean.OpeningTrustsSender`, `Arithmetic.OpeningTrustsSenderA`). So `b2a_bit`, which opens, is outside the
  robustness of the other steps.
* `log2(digits)` is rounded up to a power of two; for a 2-bit type the rounding gives one bit, which is why k >= 2.
* `mark_gap_session` assigns a one-element vector to a slice of two; the second element is overwritten by the next
  assignment and only the first is modelled.
* `mark_threshold_session` leaves row 0 of the flag column as the caller passed it, and `threshold_session_window` uses
  it as a control bit. The callers pass a dealt column of zeros (`include/relational/encoded_table.h:468-477`), whose
  shares are arbitrary words in the shipped configuration. Row 0 gets -1 whatever its timestamp exactly when the flag
  opens to 0 and its shares are `Extendable` (`Streaming.FirstMarkExactly`); otherwise it shows a mixture of -1 and its
  timestamp, as the 31 that `tests/test_operators.cpp:151` lists for a row with value 1 below the threshold 3
  (`Pitfalls.FirstRowMisses`). All windows are as documented exactly when row 0 is marked -1
  (`Streaming.ThresholdSessionWindow`): a greater value is carried to the rows above the threshold that reach row 0,
  over rows below it too, and may split a session (`Pitfalls.LaterRowMisses`).
* With a selection column, `odd_even_aggregation` combines two rows only if both are selected, so a row's result covers
  the rows that it reaches by hops between selected rows, each once, and these need not be all selected rows of its
  group (`OddEvenAggregation.AggregateSum`, `OddEvenAggregation.ChosenSumsExactly`; `Pitfalls.SelectionMisses`).

## Model

| member | source | states |
|---|---|---|
| Words.HighestDifference | include/core/containers/b_shared_vector.h:400-405 | the highest differing bit decides the unsigned order of two words |
| Words.SumIsModular | include/core/containers/b_shared_vector.h:453-466 | bitwise addition with carries is addition modulo 2^L |
| Words.GenerateSplit | include/core/containers/b_shared_vector.h:588-600 | a carry out of a range comes from its upper part, or from its lower part through a propagating upper part |
| VectorBits.SetBit | include/core/containers/vector.h:90-94 | exactly one bit of the word changes, to the given bit |
| VectorBits.BitLevelShift | include/core/containers/vector.h:120-137 | the bit loops copy the lowest bit of each upper half block over the lower half, and nothing else |
| VectorBits.ReverseBitLevelShift | include/core/containers/vector.h:150-167 | the bit loops copy the highest bit of each lower half block over the upper half, and nothing else |
| VectorBits.BitXor | include/core/containers/vector.h:211-225 | the result is one bit, the parity of all bits below the sign bit |
| VectorBits.ParityXor | include/core/containers/vector.h:211-225 | parity commutes with XOR, so parties can apply it share by share |
| VectorBits.NegateAt | include/core/containers/vector.h:901-907 | negation complements exactly the bits above the lowest set one |
| VectorBits.NegateBit | include/core/containers/vector.h:901-907 | two's-complement negation of a single bit copies it to all positions |
| Packing.SimpleBitCompress | include/core/containers/vector.h:487-504 | the loop packs bit i of every element, in order, into words, a partial last word filled with zeros |
| Packing.SimpleBitDecompress | include/core/containers/vector.h:516-530 | the loop writes the packed bits back to bit i of every element and changes no other bit |
| Packing.UnpackPacked | include/core/containers/vector.h:487-530 | packing and unpacking a bit gives the vector back |
| Packing.PackUnpacked | include/core/containers/vector.h:487-530 | unpacking into any vector and packing again gives the packed words back |
| Packing.UnpackedMeans | include/core/containers/vector.h:516-530 | bit r of packed word q goes to bit i of element q * L + r |
| Sharing.ViewIsRotation | include/core/protocols/replicated_3pc.h:217-237 | with the share it receives, every party sees every component exactly once |
| Sharing.Exchange | include/core/communication/mpi_communicator.h:236-250 | what party j sends to relative id t arrives at party (n + t + j) mod n |
| Sharing.KeepAndPass | include/core/protocols/replicated_3pc.h:49-55 | keeping the own value and passing it on yields a consistent sharing of the three values |
| Sharing.ZipReplicated | include/core/protocols/replicated_3pc.h:34-40 | any share-by-share operation keeps replication and acts on components |
| Arithmetic.AddOpens | include/core/protocols/replicated_3pc.h:34-36 | addition of sharings is consistent and opens to the sum modulo 2^L, for three and four parties |
| Arithmetic.SubOpens | include/core/protocols/fantastic_4pc.h:38-40 | the same for subtraction |
| Arithmetic.NegOpens | include/core/protocols/replicated_3pc.h:58-60 | the same for negation |
| Arithmetic.OpenAGivesSecret | include/core/protocols/replicated_3pc.h:217-223 | opening at any party gives the secret |
| Boolean.OpenBGivesSecret | include/core/protocols/fantastic_4pc.h:556-562 | opening at any party gives the secret |
| Arithmetic.OpeningTrustsSenderA | include/core/protocols/fantastic_4pc.h:543-549 | the same for numbers: an opening party of four gets the secret if and only if it receives the component that it lacks |
| Boolean.OpeningTrustsSender | include/core/protocols/fantastic_4pc.h:556-562 | an opening party of four gets the secret if and only if it receives the component that it lacks |
| Products.LocalProductValue | include/core/protocols/replicated_3pc.h:49-50 | what one of three parties computes is its three cross products plus its mask |
| Products.Multiply3Opens | include/core/protocols/replicated_3pc.h:42-56 | with masks that sum to zero the product sharing opens to the product modulo 2^L |
| Products.Multiply4Opens | include/core/protocols/fantastic_4pc.h:43-167 | each of the sixteen products of components is counted once |
| Products.SecretShareOpens | include/core/protocols/replicated_3pc.h:250-259 | dealing by any of three parties opens to the data |
| Fantastic4PC.OneBadParty | include/core/protocols/fantastic_4pc.h:62-142 | whatever one party sends, an honest party ends with its shares of the honest run or accuses a pair that contains the deviating party |
| Fantastic4PC.HonestRun | include/core/protocols/fantastic_4pc.h:43-167 | without deviation no check fails and all parties hold copies of the same product components |
| Fantastic4PC.ExchangedIsProduct | include/core/protocols/fantastic_4pc.h:43-167 | what the parties keep after the exchange of messages is the product sharing |
| Fantastic4PC.MasksMustAgree | include/core/protocols/fantastic_4pc.h:43-167 | whatever the masks, the honest run is consistent if and only if the second-round masks are zero and the three holders of every component have drawn the same first-round mask |
| Fantastic4PC.FirstArrival | include/core/protocols/fantastic_4pc.h:62-85 | both senders of the cross term that a party lacks send it masked with their own draw |
| Fantastic4PC.HonestArrivals | include/core/protocols/fantastic_4pc.h:69-141 | what each party receives and compares when the masks agree and nobody deviates |
| Fantastic4PC.CombinedShare | include/core/protocols/fantastic_4pc.h:145-166 | every party's every share is its component's square plus the cross terms that belong to that component |
| Robustness.ProgramRobust | include/core/protocols/fantastic_4pc.h:43-250 | over a whole program with products, `inp` and local steps, on numbers and words, whatever one party sends and stores at every step, the others end with exactly their shares of the honest run or an honest party stops and accuses a pair that contains the deviating one |
| Robustness.StepRobust | include/core/protocols/fantastic_4pc.h:62-250 | one instruction keeps the honest parties' shares equal to the honest run, or stops with a just accusation |
| Robustness.SameConclusion | include/core/protocols/fantastic_4pc.h:322-412 | what the honest parties conclude in a product does not depend on what the deviating party stores |
| Robustness.SameGift | include/core/protocols/fantastic_4pc.h:211-250 | whether the deviating party sends, receives or draws in `inp`, the others end with the honest shares or accuse it |
| Robustness.HonestSound | include/core/protocols/fantastic_4pc.h:43-250 | after any program the registers of the honest run are consistent sharings of elements of their rings |
| Robustness.HonestCompletes | include/core/protocols/fantastic_4pc.h:62-250 | if nobody deviates no party stops, and all end with their shares of the honest run |
| Robustness.ShareByShareReplicated | include/core/protocols/fantastic_4pc.h:415-425 | a local step, which may treat components differently, keeps all copies equal and acts on the components |
| Robustness.HonestAppend | include/core/protocols/fantastic_4pc.h:43-250 | the honest run of two programs in sequence is the second on the results of the first |
| Robustness.ActualAppend | include/core/protocols/fantastic_4pc.h:43-250 | the same for the run with a deviating party, unless the first program was stopped |
| Robustness.AnyDeviation | include/core/protocols/fantastic_4pc.h:62-142 | every message vector that differs only in what the deviating party sends is one of its choices, it stores what it likes, and the run stops exactly when an honest party accuses |
| Robustness.AnyGift | include/core/protocols/fantastic_4pc.h:211-250 | the same for `inp` with a deviating sender |
| Robustness.ByProtocol | include/core/protocols/fantastic_4pc.h:43-250 | following the protocol is one of the choices at every instruction |
| RobustConversions.RedistributionSuits | include/core/protocols/fantastic_4pc.h:489-513 | both `inp` steps of the redistribution are instructions of such programs: the two senders know the same part |
| RobustConversions.DivisionSuits | include/core/protocols/fantastic_4pc.h:253-310 | and so are the `inp` steps of a division by a constant |
| RobustConversions.RedistributionRobust | include/core/protocols/fantastic_4pc.h:489-513 | the redistribution with one deviating party: the others end with exactly their shares of the two given words, or one stops and accuses a pair that contains it |
| RobustMeaning.RedistributionMeans | include/core/protocols/fantastic_4pc.h:489-513 | undisturbed, the two words open to the sums of components 1 and 2 and of components 3 and 0, and add up modulo 2^L to the number |
| RobustMeaning.RedistributionKept | include/core/protocols/fantastic_4pc.h:489-513 | with one deviating party, unless a just accusation stops it, the others hold their shares of two words that add up to the number |
| RobustMeaning.DivisionMeans | include/core/protocols/fantastic_4pc.h:253-310 | the values given in a division open to quotient and remainder of the signed sum of two components |
| RobustMeaning.TimesOpensNumber | include/core/protocols/fantastic_4pc.h:43-167 | in the honest run the destination of a product of numbers opens to the product of what its operands open to, and the other registers stay |
| RobustMeaning.TimesOpensWord | include/core/protocols/fantastic_4pc.h:322-412 | the same for the AND of words |
| RobustMeaning.LocalActs | include/core/protocols/fantastic_4pc.h:415-425 | a local step acts on the components of its registers and leaves the others |
| RobustMeaning.GivenOpensNumber | include/core/protocols/fantastic_4pc.h:174-208 | a number that two parties give is what the register then opens to |
| RobustMeaning.GivenOpensWord | include/core/protocols/fantastic_4pc.h:211-250 | the same for words |
| Boolean.XorB | include/core/protocols/replicated_3pc.h:111-113 | opens to the bitwise XOR and keeps single-bit sharings |
| Boolean.NotB | include/core/protocols/fantastic_4pc.h:415-425 | complementing all components of three, or only the fourth of four, opens to the complement |
| Boolean.NotBit | include/core/protocols/fantastic_4pc.h:427-437 | `!` negates the low bit of the secret if and only if an even number of the negated components is non-zero with low bit 0, always on single-bit shares |
| Boolean.ExtendLsb | include/core/containers/b_shared_vector.h:298-301 | share-by-share negation opens to the low bit copied to all positions if and only if the shares are extendable |
| Boolean.ExtendableBit | include/core/containers/vector.h:896-907 | a shared bit is extendable if and only if at every position above 0 and below the sign an even number of components has its lowest set bit |
| Boolean.SingleBitExtends | include/core/containers/b_shared_vector.h:298-301 | single-bit shares are extendable |
| Boolean.LocalB | include/core/containers/b_shared_vector.h:40-84 | shifts, level shifts, bit XOR, sign bit and masks commute with opening although each party sees only its shares |
| Boolean.SetBits | include/core/containers/vector.h:763-767 | ORing every share sets the opened bits for three components and clears them for four |
| Boolean.AndB | include/core/protocols/replicated_3pc.h:115-129 | opens to the bitwise AND, for three and four parties |
| Boolean.And4Opens | include/core/protocols/fantastic_4pc.h:322-412 | the four-party AND counts every pair of components once |
| Boolean.AndMessages | include/core/protocols/fantastic_4pc.h:322-412 | the messages of `and_b` leave four parties with the product sharing on words |
| Boolean.AndMasksMustAgree | include/core/protocols/fantastic_4pc.h:322-412 | `and_b` of four parties is consistent if and only if the masks agree, for all words drawn |
| Boolean.OrB | include/core/containers/b_shared_vector.h:346-349 | opens to the bitwise OR |
| Inputs.DealtB | include/core/protocols/replicated_3pc.h:272-308 | Boolean dealing by any of three parties is consistent and opens to the data |
| Inputs.Dealt4B | include/core/protocols/fantastic_4pc.h:601-645 | Boolean dealing by party 0 of four is consistent and opens to the data |
| JointInput.InpHonest | include/core/protocols/fantastic_4pc.h:211-250 | when both senders know the value and the three mask holders agree, nobody stops and `inp` yields a consistent sharing |
| JointInput.InpOneBadParty | include/core/protocols/fantastic_4pc.h:211-250 | whatever one party sends, takes for the value or draws, every other party ends with its shares of the honest run, or is the receiver and accuses a pair that contains the deviating one |
| Inputs.InpOpensB | include/core/protocols/fantastic_4pc.h:211-250 | the result of `inp_b` opens to the value |
| Inputs.InpOpensA | include/core/protocols/fantastic_4pc.h:174-208 | the result of `inp_a` opens to the value |
| Circuits.SameStep | include/core/containers/b_shared_vector.h:113-116 | a round doubles the blocks within which bit j says whether the words agree from bit j up |
| Circuits.BitSame | include/core/containers/b_shared_vector.h:107-118 | bit j opens to whether the words agree from bit j up to the sign bit |
| Circuits.Equal | include/core/containers/b_shared_vector.h:362-370 | `==` opens to the single bit of equality |
| Circuits.EdgeParity | include/core/containers/b_shared_vector.h:403-405 | for equal signs, the parity of the edge word below the sign bit is the order of the signed values |
| Circuits.SignedGreater | include/core/containers/b_shared_vector.h:407-416 | the sign correction makes the order right for mixed signs |
| Circuits.Greater | include/core/containers/b_shared_vector.h:390-418 | `>` opens to the single bit of signed greater-than, for three and four parties |
| Circuits.Compare | include/core/operators/sorting.h:20-49 | the fused comparison is exact for three components; for four, exactly which pairs it gets wrong |
| Circuits.ForcedEqual | include/core/operators/sorting.h:30-36 | with the bit below the sign forced, the parity of the edge word detects a difference exactly when the forcing is effective |
| Adders.PrefixStep | include/core/containers/b_shared_vector.h:528-535 | after the round of level 2s each generate bit is the carry out of its aligned block prefix |
| Adders.PrefixSum | include/core/containers/b_shared_vector.h:588-600 | combines two generate/propagate pairs |
| Adders.ParallelPrefixAdder | include/core/containers/b_shared_vector.h:517-537 | opens to the sum modulo 2^L |
| RippleCarry.CompressB | include/core/containers/b_shared_vector.h:563-564 | packing share by share opens to the packed secrets |
| RippleCarry.DecompressB | include/core/containers/b_shared_vector.h:567 | unpacking share by share opens to the unpacked secrets |
| RippleCarry.AddSlice | include/core/containers/b_shared_vector.h:563-567 | bit i of all sums is right after iteration i, the bits above are still zero |
| RippleCarry.NextCarry | include/core/containers/b_shared_vector.h:569-571 | the packed carries into bit i become those into bit i + 1 |
| RippleCarry.RippleCarryAdder | include/core/containers/b_shared_vector.h:548-575 | opens element by element to the same sum as the parallel-prefix adder, for any number of rows, whatever valid masks each iteration draws |
| Conversions.PartsAddUp | include/core/protocols/replicated_3pc.h:183-189 | the two parts that are held in full add up to the secret |
| Conversions.RedistributeB | include/core/protocols/fantastic_4pc.h:489-513 | both parts become consistent Boolean sharings of themselves |
| Conversions.A2B | include/core/containers/a_shared_vector.h:168-173 | the Boolean sharing opens to the machine word that the arithmetic one opens to |
| Conversions.OpenLowBits | include/core/protocols/replicated_3pc.h:149-164 | every party gets the low bit of every element through the packed opening |
| Conversions.PassOwnBits | include/core/protocols/replicated_3pc.h:166-177 | packed own bits arrive unchanged at the successor |
| Conversions.B2ABit | include/core/protocols/fantastic_4pc.h:443-486 | a consistent arithmetic sharing of the low bit, for three and four parties |
| Conversions.ThreeBitShares | include/core/protocols/replicated_3pc.h:166-179 | own and received bits of three parties are copies of the components 0, bit, 0 |
| Division.CorrectedQuotient | include/core/containers/a_shared_vector.h:184-192 | quotient parts plus correction bit are the floor, or one less exactly when both parts are negative multiples |
| Division.ShiftedDividend | include/core/protocols/replicated_3pc.h:69-77 | shifting a negative dividend first gives the same quotient and remainder parts |
| Division.QuotientRest | include/core/protocols/fantastic_4pc.h:266-272 | quotient and remainder parts with truncating operators, and the ranges of the remainder |
| SecureDivision.DivConst3 | include/core/protocols/replicated_3pc.h:62-105 | the three-party exchange yields sharings of the sums of quotient and of error parts, as party 0 stores them when its shifted dividend overflows too |
| SecureDivision.DivConst4 | include/core/protocols/fantastic_4pc.h:253-310 | the same by two `inp` steps of four parties |
| SecureDivision.Div | include/core/containers/a_shared_vector.h:175-196 | end to end through a2b, ltz and b2a_bit the result opens to what the machine words give; without overflow of the shifted dividend the floor of the quotient of the parts' sum, one less exactly when both are negative multiples |
| SecureDivision.DivExactness | include/core/containers/a_shared_vector.h:175-196 | for all sharings, exactly when the result is the floor of secret / c: not both parts negative multiples, and no overflow of their sum unless c is 1; with an overflow of the shifted dividend by how far the remainders go |
| SecureDivision.SecretIsStored | include/core/containers/a_shared_vector.h:175-196 | the secret is the sum of the two signed parts as a machine word stores it |
| Multiplexing.MultiplexB | include/core/operators/common.h:11-18 | opens to the operand that the control bit selects when its shares are extendable, and to which mixture in general |
| Multiplexing.MultiplexExactly | include/core/operators/common.h:11-18 | selection is right for all operands if and only if the shares of the control bit are extendable |
| Multiplexing.MultiplexA | include/core/operators/common.h:20-26 | the same for arithmetic sharings, modulo 2^L |
| Multiplexing.SwapB | include/core/operators/sorting.h:152-158 | exchanges two shared words exactly when the control bit is set |
| Multiplexing.SwapA | include/core/operators/sorting.h:173-177 | the same for shared numbers |
| Multiplexing.MulA | include/core/protocols/fantastic_4pc.h:43-167 | products of both protocols are consistent, in range and open to the product |
| Multiplexing.MultiplyMessages | include/core/protocols/fantastic_4pc.h:43-167 | the messages of `multiply_a` leave four parties with the product sharing modulo 2^L |
| Multiplexing.MultiplyMasksMustAgree | include/core/protocols/fantastic_4pc.h:43-167 | `multiply_a` of four parties is consistent if and only if the masks agree, for all residues drawn |
| Programs.RunInstruction | include/core/protocols/replicated_3pc.h:34-193 | every instruction keeps all registers consistent and refines its plain meaning |
| Programs.RunProgram | include/core/protocols/replicated_3pc.h:34-237 | on the shares of any straight-line program of add, sub, mul, neg, xor, and, not, +, ==, >, a2b and b2a_bit every party opens every register to what the plain run, pinned by the next four rows, leaves there |
| Programs.EvaluateAppend | include/core/protocols/replicated_3pc.h:34-60 | a program followed by another one does what the second does to the results of the first |
| Programs.OneOnNumbers | include/core/protocols/replicated_3pc.h:34-60 | one instruction on numbers: sum, difference, product or negation modulo 2^L in the destination, all else unchanged |
| Programs.OneOnBits | include/core/protocols/replicated_3pc.h:111-143 | one instruction on words: XOR, AND and complement bit by bit, the sum of the unsigned values modulo 2^L, and the bits of equality and of signed greater-than |
| Programs.OneConversion | include/core/protocols/replicated_3pc.h:149-193 | a2b gives the word of the same value, b2a_bit the low bit as 0 or 1 |
| Programs.RegistersOpen | include/core/protocols/replicated_3pc.h:217-237 | all parties open all registers to the same values |
| Views.LocalInBounds | include/core/containers/vector_data.h:197-424 | every index map stays inside the vector it refers to |
| Views.AtInjective | include/core/containers/vector_data.h:197-424 | a chain of simple, alternating and reversed views reaches no array cell twice |
| Views.ReversedVisitsMirror | include/core/containers/vector_data.h:277-323 | reversed alternation visits exactly the alternating positions, each chunk reversed, a partial last chunk included |
| Views.SimpleReads | include/core/containers/vector_data.h:197-233 | element j of a stepped range is j steps after its start |
| Views.AlternatingReads | include/core/containers/vector_data.h:235-325 | element r of chunk c is read at its place in the chunk, by the reversed view from the end of the chunk, a partial last chunk included |
| Views.ReversedReads | include/core/containers/vector_data.h:327-357 | a reversed view reads the base from its end |
| Views.RepeatedReads | include/core/containers/vector_data.h:359-390 | every element is read the given number of times before the next one |
| Views.CyclicReads | include/core/containers/vector_data.h:393-424 | all elements are read the given number of times over |
| Columns.AssignView | include/core/containers/vector.h:723-729 | assignment through a view stores every element and changes exactly the cells of the view |
| Bitonic.StepAbove | include/core/operators/sorting.h:262-281 | a compare-and-swap step commutes with comparing every element with a threshold |
| Bitonic.CleanBox | include/core/operators/sorting.h:262-281 | a bitonic box becomes a constant half and a bitonic half |
| Bitonic.MergeBlock | include/core/operators/sorting.h:260-281 | the steps of a round narrow the unsorted part of a block to one box of halving size |
| Bitonic.NetworkSortsBlocks | include/core/operators/sorting.h:260-281 | round invariant: after i rounds every aligned block of 2^i rows is sorted, for any total preorder |
| Bitonic.NetworkSorts | include/core/operators/sorting.h:247-319 | for every power-of-two row count the network sorts |
| Bitonic.StepDistinct | include/core/operators/sorting.h:142-159 | a step only moves elements: distinct ones stay distinct and no new one appears |
| SortViews.ViewsPairPartners | include/core/operators/sorting.h:263-277 | elements with equal number in the x and y views are the partners of the network, and the views do not meet |
| SortViews.ViewsCover | include/core/operators/sorting.h:263-277 | every position is reached through exactly one of the two views |
| Rows.RowOrderIsStrict | include/core/operators/sorting.h:73-76 | the lexicographic order of rows with per-key direction is a strict total preorder |
| Rows.AfterMeans | include/core/operators/sorting.h:73-102 | a row comes after another if and only if on the first key that differs its value is greater, or smaller when the key is descending |
| Rows.AfterStep | include/core/operators/sorting.h:97-100 | one more key: the XOR and AND of the loop compose the order of the longer prefix |
| Rows.CompareKey | include/core/operators/sorting.h:92-96 | comparison of one key: greater values come after for an ascending key and before for a descending one |
| Rows.CompareRows | include/core/operators/sorting.h:78-102 | opens to the lexicographic order of two shared rows, three parties |
| Sorting.AssignBoth | include/core/operators/sorting.h:154-158 | writing both views replaces the whole column, position by position |
| Sorting.SwapColumnB | include/core/operators/sorting.h:142-159 | a B-shared column is permuted by the exchanges that the bits mark |
| Sorting.SwapColumnA | include/core/operators/sorting.h:161-178 | an A-shared column is permuted by the same exchanges |
| Sorting.CompareKeys | include/core/operators/sorting.h:266-279 | the comparison bits are the order of the paired rows |
| Sorting.SortStep | include/core/operators/sorting.h:262-316 | one step applies one permutation to all key and data columns |
| BitonicSort.PermutedOrder | include/core/operators/sorting.h:279 | rows of a permuted table compare as the original rows do |
| BitonicSort.PicksAreStep | include/core/operators/sorting.h:279-281 | what a step does to the columns is a step of the network on row numbers |
| BitonicSort.NetworkSortsTable | include/core/operators/sorting.h:247-319 | a table permuted by the whole network is in lexicographic order with the same rows |
| BitonicSort.Sort | include/core/operators/sorting.h:247-319 | in place, on shares of three parties: one permutation moves all columns, and of any two rows either all opened keys are equal or the first that differs is smaller in the earlier row when ascending and greater when descending; the multiset of whole rows is kept |
| BitonicSort.SortedMeans | include/core/operators/sorting.h:73-102 | a table without a row after a later one is in order of its opened keys, with their directions |
| Tables.RowsKept | include/core/operators/sorting.h:280-316 | one permutation of all columns keeps every row together and loses none |
| Scans.StrideSplits | include/core/operators/aggregation.h:109-113 | a strided group fold splits into the fold over even and the fold over odd multiples |
| Scans.ForwardScan | include/core/operators/aggregation.h:109-141 | distances n/2, ..., 1 give every row the fold of its group's rows at or after it |
| Scans.WindowSplits | include/core/operators/aggregation.h:111-113 | a group window is the fold of its later part and the window before it |
| Scans.ReverseScan | include/core/operators/aggregation.h:109-141 | distances 1, ..., n/2 give every row the fold of its group's rows at or before it |
| GroupMeaning.SuffixIsSum | include/core/operators/aggregation.h:18-36 | the suffix fold is the sum modulo 2^L of the group's rows at or after the row, each counted once |
| GroupMeaning.PrefixIsSum | include/core/operators/aggregation.h:29-30 | the prefix fold is the sum of the group's rows at or before the row |
| GroupMeaning.SuffixIsExtreme | include/core/operators/aggregation.h:38-77 | the suffix fold is an upper (lower) bound of the group's rows at or after the row, and attained |
| GroupMeaning.PrefixIsExtreme | include/core/operators/aggregation.h:55-56 | the same for the rows at or before |
| Hops.ScanSums | include/core/operators/aggregation.h:109-141 | whatever the relation between rows, the scan by sums is the sum modulo 2^L of the rows that are reached by hops, each counted once |
| Hops.ScanExtremes | include/core/operators/aggregation.h:109-141 | the scan by maxima or minima is an attained bound of the rows that are reached |
| Hops.TakenOnce | include/core/operators/aggregation.h:109-113 | no row is taken in before a round and again through the hop of the round |
| Hops.PatchedScan | include/core/operators/aggregation.h:109-141 | another value in row 0 shows in row 0 and, where it is the greatest, in exactly the rows that reach row 0 |
| Aggregation.GroupBits | include/core/operators/aggregation.h:115-136 | the group bits say which rows at distance d agree on all keys and are both selected; when their shares are extendable |
| Aggregation.SumColumn | include/core/operators/aggregation.h:18-36 | one round of sums on a column, in place through slices |
| Aggregation.ExtremeOf | include/core/operators/aggregation.h:49-56 | `>` and `multiplex` give the signed maximum or minimum |
| Aggregation.ExtremeColumn | include/core/operators/aggregation.h:38-61 | one round of maxima or minima on a column, in place through slices |
| OddEvenAggregation.CopyValues | include/core/operators/aggregation.h:91-97 | results that are different objects get copies of the values |
| OddEvenAggregation.AggregateSum | include/core/operators/aggregation.h:79-142 | the round loop on shares leaves in every row the sum modulo 2^L of the rows it reaches, for any keys and any selection, and for contiguous keys without selection its group sum |
| OddEvenAggregation.AggregateExtreme | include/core/operators/aggregation.h:79-142 | the same by signed maxima or minima |
| OddEvenAggregation.AggregatedSums | include/core/operators/aggregation.h:18-36 | for contiguous keys the opened results are the group sums modulo 2^L at or after (reverse: at or before) each row |
| OddEvenAggregation.ChosenSumsExactly | include/core/operators/aggregation.h:132-136 | with a selection a selected row's sums are those of the selected rows of its group, for all values, if and only if it reaches all of them |
| OddEvenAggregation.AggregatedExtremes | include/core/operators/aggregation.h:38-77 | for contiguous keys the opened results are the group maxima or minima |
| OddEvenAggregation.GroupSumsMean | include/core/operators/aggregation.h:18-36 | a group sum is the sum of the values of exactly the rows on that side whose keys are all equal |
| OddEvenAggregation.GroupExtremesMean | include/core/operators/aggregation.h:38-77 | a group maximum or minimum is the value of such a row, and no such row has a greater or smaller one |
| SelectedGroups.WholeGroupReached | include/core/operators/aggregation.h:109-141 | without a selection and with contiguous keys a row reaches exactly the rows on that side with equal keys |
| SelectedGroups.SelectedSums | include/core/operators/aggregation.h:132-136 | with a selection a row that is not selected keeps its value, and a row whose group is selected from there on gets the sum of that part of the group |
| SelectedGroups.SelectedExtremes | include/core/operators/aggregation.h:132-136 | the same for maxima and minima |
| SessionWindows.PrefixIsLatest | include/core/operators/streaming.h:67-70 | the prefix maximum of marked timestamps is the latest mark of the key run |
| SessionWindows.SameWindow | include/core/operators/streaming.h:29-71 | two rows of a key run are in one window if and only if no gap between them is too large |
| SessionWindows.ScanCovers | include/core/operators/aggregation.h:132-136 | with a selection, hops may skip rows but every row covers the run of selected rows it is connected to |
| SessionWindows.ThresholdWindow | include/core/operators/streaming.h:74-112 | with row 0 marked -1, a row above the threshold gets the latest crossing of its key run or -1, a row below gets -1 |
| SessionWindows.SameThresholdWindow | include/core/operators/streaming.h:74-112 | rows of a key run with no row below the threshold between them have the same latest crossing |
| SessionWindows.PatchedWindow | include/core/operators/streaming.h:92-112 | with any mark in row 0: row 0 shows it, and so do the rows above the threshold that reach row 0 and whose latest crossing is earlier; all others are as without it |
| SessionWindows.WindowsExactly | include/core/operators/streaming.h:92-112 | all windows are as documented if and only if row 0 is marked -1 |
| Streaming.GapFlag | include/core/operators/streaming.h:44-49 | the shared flag opens to whether the gap is exceeded |
| Streaming.MarkGapSession | include/core/operators/streaming.h:29-50 | the start flags open to row 0 and every row after too large a gap |
| Streaming.GapSessionWindow | include/core/operators/streaming.h:53-71 | on shares of three or four parties: window ids are session starts, and equal exactly when no gap is too large |
| WindowLaws.GapLawHolds | include/core/operators/streaming.h:53-71 | the law of gap sessions about opened columns: row 0 and rows after too large a gap show their timestamps, other first rows of a key run -1, and rows of a run the same exactly when no gap between is too large |
| Streaming.RisingEdges | include/core/operators/streaming.h:86-89 | the flag of a row opens to whether it is above the threshold and its predecessor is not |
| Streaming.FirstMarkExactly | include/core/operators/streaming.h:103-107 | a flag of the caller marks row 0 with -1, whatever the timestamp, if and only if it opens to 0 and its shares are extendable |
| Streaming.MarkThresholdSession | include/core/operators/streaming.h:74-90 | potential windows are the rows above the threshold, the start flag of a row from 1 on says whether its value is above the threshold and that of its predecessor is not, and row 0 keeps its share |
| Streaming.ThresholdSessionWindow | include/core/operators/streaming.h:92-112 | on shares, for any shared flag in row 0: every row's window in terms of the mark of row 0, and the law of threshold sessions if and only if that mark is -1 |
| WindowLaws.ThresholdLawExactly | include/core/operators/streaming.h:92-112 | the law about opened columns, which holds exactly when row 0 is marked -1: rows at or below the threshold show -1, a row above it after one that is not shows its timestamp, a first row of a key run above it without such a predecessor -1, and all rows of a stretch above it in a key run the same |
| Streaming.ShareNumber | include/core/protocols/fantastic_4pc.h:577-673 | dealing a public number by party 0 opens to it, for three and four parties |
| Batching.ThreadBatchBoundary | include/service/common/runtime.h:338-358 | start and end of a thread are consecutive boundaries |
| Batching.RangesTile | include/service/common/runtime.h:338-358 | the boundaries start at 0, never decrease and end at the total size |
| Batching.RangesBalanced | include/service/common/runtime.h:342-357 | every thread but the last gets a whole number of batches, the first remaining ones get one more |
| Batching.ThreadOf | include/service/common/runtime.h:338-358 | every position belongs to the range of some thread |
| Batching.PiecesFit | include/service/common/task.h:38-43 | pieces are non-empty, at most a batch long and inside the range |
| Batching.PiecesTile | include/service/common/task.h:38-43 | the pieces follow each other without a gap, and only the last may be shorter than a batch |
| Batching.PieceOf | include/service/common/task.h:38-43 | every position of the range is in a piece |
| Batching.ApplyAllAt | include/service/common/task.h:62-68 | after any list of pieces a position holds the operation's result exactly if some piece covers it |
| Batching.PiecewiseIsWhole | include/service/common/runtime.h:447-485 | any interleaving of all threads' pieces computes the operation on the whole vector |
| Batching.PiecesDoRange | include/service/common/task.h:38-43 | the pieces of a range compute the operation on exactly the range |
| Batching.Task.Execute | include/service/common/task.h:38-43 | the batch loop applies the operation to every position of its range, piece by piece, and touches nothing else |
| Batching.Task.RunBatch | include/service/common/runtime.h:469-474 | one batch through the batch windows of both vectors |
| Runtime.StepInv | include/service/common/runtime.h:404-436 | every step of main thread, worker or caller keeps the invariant on locks, task slots and execution records |
| Runtime.RunInv | include/service/common/runtime.h:404-485 | the invariant holds in every state of every run; it includes that a worker the destructor has joined has ended |
| Runtime.ExactlyOnce | include/service/common/runtime.h:450-485 | every worker executes every submission's task exactly once, in order, and has done so when the call returns |
| Runtime.SlotIsFree | include/service/common/runtime.h:463-475 | when a task slot is replaced its worker is blocked and has executed the previous task |
| Runtime.ExecutesCurrent | include/service/common/runtime.h:424-425 | an executing worker finds the task of the current submission, not yet executed |
| Runtime.AllReady | include/service/common/runtime.h:417-435 | before any submission every worker has taken its locks and counted down |
| Runtime.AllJoined | include/service/common/runtime.h:387-394 | when the destructor has finished every worker has ended, and while it runs those before the one it wakes have |
| Runtime.NeverStuck | include/service/common/runtime.h:387-485 | start, submission and shutdown are never blocked in all threads, so a phase ends idle or stopped |
| Runtime.StepDecreases | include/service/common/runtime.h:450-485 | every step brings the current phase closer to its end, whatever the schedule |
| Runtime.PhaseBound | include/service/common/runtime.h:450-485 | a phase of n workers has at most 38n + 16 steps |
| Pitfalls.ExtendLsbMisses | include/core/containers/vector.h:896-907 | the 8-bit sharing 3 ^ 2 ^ 0 of the bit 1 is not extendable and extends to 3 |
| Pitfalls.WideButExtendable | include/core/containers/vector.h:896-907 | the sharing 2 ^ 2 ^ 1 has shares that are not single bits and is extendable |
| Pitfalls.KeylessMaximumMisses | include/core/operators/aggregation.h:99-116 | with the constant one shared as 3 ^ 2 ^ 0 the selection of the maximum of 0 and 4 gives 0 |
| Pitfalls.MasksReachExtension | include/core/protocols/replicated_3pc.h:115-129 | a three-party AND with cancelling masks leaves extendable shares for all single-bit operands if and only if no mask has a bit between the lowest and the sign |
| Pitfalls.ComparisonMaskMisses | include/core/containers/b_shared_vector.h:407-416 | cancelling masks 2, 2, 0 on the last AND of a comparison leave shares that are not extendable |
| Pitfalls.SelectionMisses | include/core/operators/aggregation.h:132-136 | of a group of four rows without the second, row 0 does not reach row 3, and its sum is 5 where the selected rows have 13 |
| Pitfalls.FirstRowMisses | include/core/operators/streaming.h:103-107 | a zero flag shared as 1 ^ 3 ^ 2 marks row 0 with its timestamp and the two lowest bits set, 3 for timestamp 0 |
| Pitfalls.LaterRowMisses | include/core/operators/aggregation.h:132-136 | a 3 in row 0 is carried over a row below the threshold into row 2, and rows 2 and 3 of one session differ |
| Pitfalls.DivisionMisses | include/core/containers/a_shared_vector.h:175-196 | dividing an 8-bit sharing with any two parts by any divisor stores what the following witnesses speak about |
| Pitfalls.NegativeMultiplesMiss | include/core/protocols/replicated_3pc.h:62-105 | parts -4 and -4: -8 by 2 gives -5 |
| Pitfalls.OverflowMisses | include/core/protocols/replicated_3pc.h:62-105 | parts 100 and 100: -56 by 2 gives 100 |
| Pitfalls.NegativeOverflowMisses | include/core/protocols/replicated_3pc.h:62-105 | parts -100 and -100: 56, which is not negative, by 3 gives -67 |
| Pitfalls.UnderflowMisses | include/core/protocols/replicated_3pc.h:65-77 | parts -90 and 0: -90 by 100 gives 1 |
| Pitfalls.UnderflowMayMeet | include/core/protocols/replicated_3pc.h:65-77 | parts -90 and 95: 5 by 100 gives 0 although the shifted dividend overflows |
| Pitfalls.OneSecondMaskMisses | include/core/protocols/fantastic_4pc.h:107-141 | with one second-round mask not zero party 2 accuses although nobody deviates |
| Pitfalls.EqualSecondMasksMiss | include/core/protocols/fantastic_4pc.h:145-166 | with equal second-round masks the checks pass and copies of a component differ |
| Pitfalls.FourPartyCompareMisses | include/core/operators/sorting.h:30-36 | four parties' fused comparison reports the 8-bit words 64 and 0 as equal |

## Left out

- The message-passing layer: sends, receives and chunking are reliable delivery to the party at the relative id.
- The generator of random numbers and privacy: masks are parameters, and nothing is claimed about what a party learns.
- Robustness.ProgramRobust: instructions are local steps, products and `inp`, which covers a2b and division up to `b2a_bit`; `b2a_bit` and the final result open, and opening is unchecked in the source; the hash of the copies is their value, as in the source.
- Boolean.AndB: the exchange without deviation; deviation of one party is the subject of Fantastic4PC.OneBadParty and Robustness.
- SecureDivision.Div: requires a positive divisor c with 2 * c < 2^L, as the share type holds it; the variant without `USE_DIVISION_CORRECTION` is not modelled.
- Rows.CompareRows: three parties only, because the fused comparison of four parties is not exact.
- BitonicSort.Sort: three parties only, for the same reason; columns are different arrays, as sorting one array twice swaps its rows back.
- BitonicSort.Sort: a table whose row count is not a power of two fails an assertion in the source and is excluded.
- OddEvenAggregation.AggregateSum: power-of-two row counts, where the floating-point distances of the source are exact; results are different arrays, and a values array is its own result array or none.
- OddEvenAggregation.AggregateExtreme: the same, and keys and selection are not among the results.
- OddEvenAggregation.AggregatedSums: keys contiguous; for other key orders and for selections AggregateSum says which rows a sum covers, not that these are the group.
- BitonicSort.Sort: with three parties the masks of `KeyMasks` are single bits; the zero draws of the repository are, and arbitrary cancelling masks would make `swap` go wrong (Pitfalls.ComparisonMaskMisses).
- OddEvenAggregation.AggregateExtreme: with three parties the masks of `ExtremeMasks` and `GroupsControl` are single bits, and a shared one is extendable, for the same reason; AggregateSum needs neither.
- Streaming.GapSessionWindow: timestamps not negative and ordered within key runs, gap not negative, no overflow of the compared sums.
- Packing.SimpleBitCompress: one bit per element (step and repetition 1, start equal to end), the only form the circuits use.
- The four-party `secret_share_*` with a data party other than 0, whose send index adds the party id twice.
- `alternating_bit_compress` and `alternating_bit_decompress`, which no modelled operator uses.
- The by-value overload of `bitonic_sort`, the `distinct` operators, `!=`, `<`, `<=`, `>=` (compositions of the modelled ones) and `tumbling_window` (one call of `div`).
- Tables, columns with encodings, operator macros, smart-pointer overloads, the vector cache, debug output and benchmarks.
- Locks as owned mutexes: each lock is a binary semaphore; `keep_running` and the start counter are single atomic steps.
- Unsigned share types: words are read as signed, as the instantiations of the repository are.
- Overflow of index arithmetic in the 32-bit `int` of batch loops and views.
- Vectors of elements in the protocols and circuits: they are modelled per element, and the order of elements is preserved by construction.
