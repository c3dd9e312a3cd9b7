# pdp_labs cores in Dafny

This project models the sequential cores of a set of parallel-programming lab
exercises. It strips away the threads, thread pools, MPI and sockets around
them. The cores and their files are:

- `dsm.dfy` (module `SharedMemory`): the lab8 coordinator-based distributed
  shared memory node. It has integer cells with subscriber sets, the client
  operations `write`, `compareAndExchange`, `load`, `subscribe`, `close` and
  `inspect`, and the `listenForChanges` dispatch loop with its close quorum.
  A message is a datatype, and an MPI send is a packet appended to an outbox.
  The listener is a pure step function over the node state. A class `Dsm`
  over `SharedVariable` objects applies that step in place.
- `poly_spec.dfy` (`PolySpec`): the product every polynomial variant must
  compute. It is the convolution of two coefficient sequences, with the
  Karatsuba identities proved over the integers.
- `poly_vector.dfy` (`PolyVector`): the vector-backed `Polynomial` of
  lab5/lab5_opt.cpp, lab5/lab5_tp.cpp, lab5/lab5.cpp and lab7/lab5_opt.cpp.
  The operators, `padToSize` and `segmentMultiplication` of
  lab5/lab5_opt_span.cpp are the same code and are covered here too.
  It covers the operators `+ - * == !=`, `padToSize`, the sequential
  `karatsuba` with its three base-case thresholds (`n < 65`, `n < 64`,
  `n == 1`), `karatsuba_mult`, the half-open `segmentMultiplication`, and the
  window loop of `polynomialMultiplicationMT`.
- `poly_shared.dfy` (`PolyShared`): the `shared_ptr` variant
  (lab5/lab5_opt_ptr.cpp). Its coefficient vector is an object that
  polynomials may share: construction from a pointer aliases it, while
  copying deep-copies it.
- `poly_span.dfy` (`PolySpan`): the span-based Karatsuba of
  lab5/lab5_opt_span.cpp, which returns a raw vector, and its
  `karatsuba_mult` degree fix-up.
- `poly_cluster.dfy` (`PolyCluster`): lab7's inclusive-window
  `segmentMultiplication` and the rank-0 merge of the windows.
- `matrix.dfy` (`MatrixWork`): lab3's `computeElement`, matrix generation,
  the row-major, column-major and k-th-element workers, `verifyResult`, and
  the work split of `threadTest`.
- `hamiltonian.dfy` (`Hamiltonian`): lab6's directed graph, `isSafe`,
  `verifySolution`, the sequential backtracking search and the ring
  generator.
- `inventory.dfy` (`Inventory`): lab1's products, bills, bill list and shop
  account, the sale step of `threadWork`, and the two inventory checks.
- `http_text.dfy` (`HttpText`), `http_headers.dfy` (`HttpFields`),
  `http_status.dfy` (`HttpStatus`), `http_response.dfy` (`HttpResponse`)
  and `http_request.dfy` (`HttpRequest`): lab4's HTTP parser. This covers
  .NET's `Trim`/`Split` as the parser uses them, `SplitLines`, the header
  dictionary, the status line, the parsed response with its content length
  and body, and the parsed request with its body and serialisation. An
  exception is a `Failure` of a `Result`.

The parser follows its code where the code and RFC 9112 part ways. It drops
the header line just before the blank line, finds the status code anywhere
in the second token, and never rejects the version.

## Model

| member | source | states |
|---|---|---|
| SharedMemory.Code | lab8/lab8.cpp:48-56 | each kind has its own `MessageCode`: CLOSE_CONNECTION 0, WRITE_VALUE 1, COMPARE_AND_EXCHANGE 2, REGISTER_SUBSCRIBER 3, NEW_SUBSCRIBER 4; an unknown message keeps its code; for a well-formed message, the code is outside 0..4 exactly when the message is unknown |
| SharedMemory.Payload | lab8/lab8.cpp:186-248 | a well-formed message carries as many integers after its code as the listener receives for that code (2, 3, 2, 2, none otherwise) |
| SharedMemory.Decode | lab8/lab8.cpp:167-266 | the `switch` on a received code gives a well-formed message with that code and that payload; codes 0..4 go to their own case, every other code to `default` |
| SharedMemory.DecodeEncode | lab8/lab8.cpp:167-266 | decoding a well-formed message's code and payload gives that message back |
| SharedMemory.AscendingLists | lab8/lab8.cpp:192-193 | the ascending listing of a subscriber set has each member exactly once, in strictly increasing order, as `std::set` iterates |
| SharedMemory.Ordered | lab8/lab8.cpp:192-193 | the subscriber loop visits the set's elements in ascending order |
| SharedMemory.SendAll | lab8/lab8.cpp:192-200 | sending to each destination in turn yields one packet per destination, in order, all carrying the same message |
| SharedMemory.Broadcast | lab8/lab8.cpp:174-175 | a broadcast has one packet per destination, in the destinations' order |
| SharedMemory.WriteLocal | lab8/lab8.cpp:62-64 | a write stores the value in cell i only; its subscribers and every other cell are unchanged |
| SharedMemory.CasLocal | lab8/lab8.cpp:66-68 | compare-and-exchange sets cell i to the new value iff it held the expected one, and otherwise changes nothing |
| SharedMemory.AddSubLocal | lab8/lab8.cpp:70-72 | subscribing adds the node to cell i's set and changes nothing else |
| SharedMemory.Step | lab8/lab8.cpp:164-267 | one listener iteration keeps the rank, the size and the number of cells |
| SharedMemory.Run | lab8/lab8.cpp:164-268 | the loop over a message sequence keeps rank, size and cell count, and a closed listener reads nothing more |
| SharedMemory.RunAppend | lab8/lab8.cpp:164-165 | one more message is one more step after the run so far, unless that run had already closed |
| SharedMemory.WriteFanOut | lab8/lab8.cpp:185-204 | WRITE_VALUE stores the value; only rank 0 forwards the identical message, to exactly the cell's subscribers, once each, in ascending rank order |
| SharedMemory.CasFanOut | lab8/lab8.cpp:206-231 | COMPARE_AND_EXCHANGE applies the exchange; rank 0 forwards the same request, not its outcome, to exactly the subscribers in ascending order; other ranks send nothing |
| SharedMemory.WriteForwardConverges | lab8/lab8.cpp:189-198 | a forwarded write gives the replica the coordinator's value, whatever it held before |
| SharedMemory.CasForwardMayDiverge | lab8/lab8.cpp:211-222 | a replica whose cell differs keeps a different value after applying the same forwarded compare-and-exchange as the coordinator |
| SharedMemory.RegisterBroadcast | lab8/lab8.cpp:246-261 | REGISTER_SUBSCRIBER adds the subscriber and sends NEW_SUBSCRIBER to nodes 1..size-1 in order; with one node nothing is recorded or sent |
| SharedMemory.NewSubChecked | lab8/lab8.cpp:233-244 | NEW_SUBSCRIBER adds the subscriber for an index in range, changes nothing otherwise, and never sends |
| SharedMemory.UnknownTerminates | lab8/lab8.cpp:263-266 | a code outside 0..4, REMOVE_SUBSCRIBER included, closes the listener and sends nothing |
| SharedMemory.CoordinatorQuorum | lab8/lab8.cpp:168-179 | after k CLOSE_CONNECTION messages the coordinator has terminated iff size >= 2 and k >= size-1; the counter counts messages; the only output is the closing broadcast to 1..size-1 |
| SharedMemory.ReplicaClosesOnFirst | lab8/lab8.cpp:168-183 | a node other than 0 terminates on its first CLOSE_CONNECTION, with counter 1, sending nothing |
| SharedMemory.VisibleEntries | lab8/lab8.cpp:131-152 | every `inspect` entry is a cell the node may see (rank 0 or subscribed), with its value and its subscribers ascending, in cell order |
| SharedMemory.VisibleAt | lab8/lab8.cpp:134-148 | cell i contributes one entry exactly when the node may see it |
| SharedMemory.VisibleComplete | lab8/lab8.cpp:137 | every cell the node may see has an entry |
| SharedMemory.SharedVariable.constructor | lab8/lab8.cpp:21 | a new cell holds 0 and has no subscribers |
| SharedMemory.SharedVariable.GetValue | lab8/lab8.cpp:58-60 | returns the stored value |
| SharedMemory.SharedVariable.WriteValue | lab8/lab8.cpp:62-64 | stores the value and keeps the subscribers |
| SharedMemory.SharedVariable.CompareAndExchange | lab8/lab8.cpp:66-68 | stores the new value iff the old one equals the expected one |
| SharedMemory.SharedVariable.AddSubscriber | lab8/lab8.cpp:70-72 | inserts the node into the subscriber set, keeping the value |
| SharedMemory.Dsm.Cells | lab8/lab8.cpp:77 | the abstract cells are the values and subscriber sets of the variables vector, one per variable |
| SharedMemory.Dsm.constructor | lab8/lab8.cpp:82-88 | `variable_count` distinct fresh cells, each 0 with no subscribers |
| SharedMemory.Dsm.Write | lab8/lab8.cpp:90-96 | stores the value locally first (so a following load reads it back) and sends WRITE_VALUE(i, v) to node 0 from any rank |
| SharedMemory.Dsm.CompareAndExchange | lab8/lab8.cpp:98-105 | applies the local compare-and-exchange and sends COMPARE_AND_EXCHANGE(i, new, expected) to node 0 |
| SharedMemory.Dsm.Load | lab8/lab8.cpp:107-109 | returns cell i's value |
| SharedMemory.Dsm.CloseConnection | lab8/lab8.cpp:111-116 | sends CLOSE_CONNECTION to node 0 iff rank > 0 |
| SharedMemory.Dsm.Subscribe | lab8/lab8.cpp:118-129 | an index out of range changes nothing and sends nothing; otherwise the node is added and REGISTER_SUBSCRIBER(i, node) goes to node 0 |
| SharedMemory.Dsm.Inspect | lab8/lab8.cpp:131-152 | returns the visible entries and changes nothing |
| SharedMemory.Dsm.Dispatch | lab8/lab8.cpp:167-267 | handling one message leaves the cells, the counter, the closed flag and the sent packets exactly as `Step` says |
| SharedMemory.Dsm.ForwardRegistration | lab8/lab8.cpp:250-256 | with more than one node the subscriber is recorded and NEW_SUBSCRIBER goes to 1..size-1; with one node nothing happens |
| SharedMemory.Dsm.ListenForChanges | lab8/lab8.cpp:154-272 | the loop consumes messages until the listener closes or none is left, and its final state and outbox are those of `Run` over the consumed prefix |
| PolySpec.Zeros | lab5/lab5_opt.cpp:276 | a vector of n zeros has n entries, all 0 |
| PolySpec.Product | lab5/lab5_opt.cpp:171-186 | the product of two nonempty coefficient vectors has \|a\|+\|b\|-1 coefficients |
| PolySpec.CoefProduct | lab5/lab5_opt.cpp:177-183 | coefficient k of the product is Σ_{i+j=k} a[i]·b[j], and 0 outside it |
| PolySpec.AddCoef | lab5/lab5_opt.cpp:133-150 | the coefficient-wise sum is as long as the longer operand |
| PolySpec.SubCoef | lab5/lab5_opt.cpp:152-169 | the coefficient-wise difference is as long as the longer operand |
| PolySpec.CoefAdd | lab5/lab5_opt.cpp:139-147 | each coefficient of the sum is the sum of the coefficients, a missing one counting as 0 |
| PolySpec.CoefSub | lab5/lab5_opt.cpp:158-166 | each coefficient of the difference is the difference of the coefficients, a missing one counting as 0 |
| PolySpec.AddThenSub | lab5/lab5_opt.cpp:133-169 | subtracting what was added gives back every coefficient of the first operand |
| PolySpec.CoefPad | lab5/lab5_opt.cpp:207-212 | trailing zeros do not change any coefficient |
| PolySpec.ConvAtOutside | lab5/lab5_opt.cpp:173-175 | the product has no term below degree 0 or above \|a\|+\|b\|-2 |
| PolySpec.ConvAtSplitLeft | lab5/lab5_opt.cpp:259-260 | splitting the left operand at a point splits the product into the low part plus the shifted high part |
| PolySpec.ConvAtSplitRight | lab5/lab5_opt.cpp:261-262 | the same split for the right operand |
| PolySpec.ConvAtPad | lab5/lab5_opt.cpp:374-375 | padding either operand with zeros leaves every product coefficient unchanged |
| PolySpec.ConvAtAddLeft | lab5/lab5_opt.cpp:267 | the product is linear in its left operand |
| PolySpec.ConvAtAddRight | lab5/lab5_opt.cpp:268 | the product is linear in its right operand |
| PolySpec.ConvAtCommutes | lab5/lab5_opt.cpp:177-183 | each product coefficient is the same with the operands swapped |
| PolySpec.ProductCommutes | lab5/lab5_opt.cpp:171-186 | the product vector is the same with the operands swapped |
| PolySpec.KaratsubaSplit | lab5/lab5_opt.cpp:257-265 | with equally long low halves, the product is low·low + x^m (low·high + high·low) + x^2m high·high |
| PolySpec.KaratsubaMiddle | lab5/lab5_opt.cpp:267-272 | the product of the half sums holds all four partial products |
| PolySpec.KaratsubaRecombine | lab5/lab5_opt.cpp:274-291 | coefficient k of the product is z0[k] + (z2-z1-z0)[k-mid] + z1[k-2·mid] |
| PolySpec.ConvAtTop | lab5/lab5_opt.cpp:181 | the top product coefficient is the product of the two leading coefficients |
| PolyVector.ValueIsAll | lab5/lab5_opt.cpp:111 | a polynomial built from a vector has that whole vector as its value |
| PolyVector.SplitAtDegree | lab5/lab5_opt.cpp:207-212 | a valid polynomial's vector is its value followed by padding zeros |
| PolyVector.ConvAtOfVectors | lab5/lab5_opt.cpp:250-255 | multiplying the padded vectors gives the same coefficients as multiplying the values |
| PolyVector.Add | lab5/lab5_opt.cpp:133-150 | `+` returns max(deg)+1 coefficients, each the coefficient-wise sum with missing terms as 0 (the same loops in lab5/lab5_tp.cpp:112-133, lab5/lab5.cpp:115-137, lab7/lab5_opt.cpp:68-86, lab5/lab5_opt_span.cpp:115-132) |
| PolyVector.Sub | lab5/lab5_opt.cpp:152-169 | `-` returns max(deg)+1 coefficients, each the coefficient-wise difference (also lab5/lab5_tp.cpp:135-156, lab5/lab5.cpp:139-159, lab7/lab5_opt.cpp:87-104, lab5/lab5_opt_span.cpp:134-151) |
| PolyVector.Mul | lab5/lab5_opt.cpp:171-186 | `*` returns deg1+deg2+1 coefficients, result[k] = Σ_{i+j=k} a_i·b_j (also lab5/lab5_tp.cpp:158-177, lab5/lab5.cpp:161-180, lab7/lab5_opt.cpp:106-121, lab5/lab5_opt_span.cpp:153-168) |
| PolyVector.Equals | lab5/lab5_opt.cpp:188-200 | `==` holds iff the degree fields agree and so do coefficients 0..degree; padding beyond the degree is ignored (also lab5/lab5_tp.cpp:179-192, lab5/lab5.cpp:182-195, lab7/lab5_opt.cpp:123-135, lab5/lab5_opt_span.cpp:170-182) |
| PolyVector.NotEquals | lab5/lab5_opt.cpp:202-205 | `!=` is the negation of `==` |
| PolyVector.PadToSize | lab5/lab5_opt.cpp:207-212 | appends zeros up to size entries, never shrinks, keeps the degree and the value (also lab5/lab5_tp.cpp:194-199, lab5/lab5.cpp:197-202, lab7/lab5_opt.cpp:142-147, lab5/lab5_opt_span.cpp:189-194) |
| PolyVector.SubUndoesAdd | lab5/lab5_opt.cpp:133-169 | (p+q)-q has every coefficient of p, and `==` p when q's degree is not larger |
| PolyVector.SwappedOperands | lab5/lab5_opt.cpp:171-186 | q*p `==` p*q |
| PolyVector.PaddingKeepsEquality | lab5/lab5_opt.cpp:188-212 | a polynomial `==` its padded self |
| PolyVector.Karatsuba | lab5/lab5_opt.cpp:250-296 | on equally long vectors: below the cutoff (65 here, 64 in lab5/lab5_tp.cpp:227-275, 1 in lab5/lab5.cpp:230-278) the direct product, else 2n-1 entries; every entry is the product coefficient and the degree is deg1+deg2 |
| PolyVector.KaratsubaStep | lab5/lab5_opt.cpp:257-295 | one level above the cutoff returns the 2n-1 product coefficients with degree deg1+deg2 |
| PolyVector.PartialProducts | lab5/lab5_opt.cpp:257-274 | mid > 0 and the recursive calls get mid, n-mid and n-mid coefficients (all smaller than n); z0, z1 and z2 are the products of the low halves, high halves and half sums; z4 = z2-z1-z0 |
| PolyVector.MiddleCoefs | lab5/lab5_opt.cpp:274 | each coefficient of z4 is z2-z1-z0 at that degree |
| PolyVector.RecombineAll | lab5/lab5_opt.cpp:276-291 | the recombined vector holds the full product coefficients |
| PolyVector.ProductFromVectors | lab5/lab5_opt.cpp:293-294 | a product vector cut at deg1+deg2 is a valid polynomial whose value is the product |
| PolyVector.Recombination | lab5/lab5_opt.cpp:276-291 | the three loops give 2n-1 cells, cell k = z0[k] + z4[k-mid] + z1[k-2·mid]; every index written stays inside the buffer |
| PolyVector.Recombine | lab5/lab5_opt.cpp:276-291 | that sum is product coefficient k |
| PolyVector.KaratsubaMult | lab5/lab5_opt.cpp:369-377 | pads both operands to max(deg)+2 coefficients without changing their values, and the result `==` p1*p2 (also lab5/lab5_tp.cpp, lab5/lab5.cpp) |
| PolyVector.SegmentMultiplication | lab5/lab5_opt.cpp:388-402 | adds product coefficient k to result[k] exactly for k in [min, max) and leaves every other cell unchanged (the same function in lab5/lab5_opt_span.cpp:406-420) |
| PolyVector.RunWindows | lab5/lab5_opt.cpp:413-417 | the windows start, start+inc, ... while start <= M on a zeroed buffer yield the full product |
| PolyVector.PoolIncrement | lab5/lab5_opt.cpp:410-411 | the window width M·3/2/16 is replaced by 4 when 0, so it is positive |
| PolyVector.PolynomialMultiplicationMT | lab5/lab5_opt.cpp:404-424 | the windowed product is p1*p2 |
| PolyShared.IntVector.constructor | lab5/lab5_opt_ptr.cpp:126 | a fresh vector object holding the items |
| PolyShared.Polynomial.Empty | lab5/lab5_opt_ptr.cpp:97 | degree 0 over a fresh empty vector |
| PolyShared.Polynomial.Share | lab5/lab5_opt_ptr.cpp:99-103 | constructing from a pointer aliases the caller's vector; degree is its size minus one |
| PolyShared.Polynomial.Copy | lab5/lab5_opt_ptr.cpp:110-111 | the copy constructor deep-copies into a fresh vector with the same degree |
| PolyShared.Polynomial.Assign | lab5/lab5_opt_ptr.cpp:113-120 | assignment deep-copies; self-assignment changes nothing |
| PolyShared.Polynomial.SetDegree | lab5/lab5_opt_ptr.cpp:105-108 | sets the degree and keeps the vector |
| PolyShared.Polynomial.PadToSize | lab5/lab5_opt_ptr.cpp:196-201 | pads the shared vector in place, so every alias sees the zeros |
| PolyShared.Polynomial.Add | lab5/lab5_opt_ptr.cpp:122-139 | `+` through both pointers is the coefficient-wise sum, in a fresh vector |
| PolyShared.Polynomial.Sub | lab5/lab5_opt_ptr.cpp:141-158 | `-` through both pointers is the coefficient-wise difference |
| PolyShared.Polynomial.Mul | lab5/lab5_opt_ptr.cpp:160-175 | `*` through both pointers is the convolution of length deg1+deg2+1 |
| PolyShared.Polynomial.Equals | lab5/lab5_opt_ptr.cpp:177-189 | `==` compares degrees and coefficients up to the degree |
| PolyShared.Polynomial.NotEquals | lab5/lab5_opt_ptr.cpp:191-194 | `!=` negates `==` |
| PolyShared.Wrap | lab5/lab5_opt_ptr.cpp:283-284 | wrapping a computed vector and setting its degree gives a fresh polynomial with that value |
| PolyShared.Karatsuba | lab5/lab5_opt_ptr.cpp:239-287 | on equally long shared vectors, the value is the product and the degree deg1+deg2 |
| PolyShared.KaratsubaMult | lab5/lab5_opt_ptr.cpp:352-360 | both shared vectors are padded in place (one shared by both operands is padded once), and the result `==` p1*p2 of the operands as they were |
| PolyShared.PadBoth | lab5/lab5_opt_ptr.cpp:357-358 | the two padding calls leave each vector padded to the size, even when the two are the same object |
| PolyShared.KaratsubaIsTimes | lab5/lab5_opt_ptr.cpp:284 | a result of degree deg1+deg2 whose value is the product `==` p1*p2 |
| PolyShared.PaddedTwice | lab5/lab5_opt_ptr.cpp:196-201 | padding twice to the same size pads once |
| PolyShared.PaddingKeepsValue | lab5/lab5_opt_ptr.cpp:196-201 | padding keeps a polynomial valid with the same value |
| PolyShared.SegmentMultiplication | lab5/lab5_opt_ptr.cpp:371-385 | adds product coefficient k to the shared result exactly for k in [min, max) |
| PolyShared.PolynomialMultiplicationMT | lab5/lab5_opt_ptr.cpp:387-407 | the windowed product into a fresh shared vector is p1*p2 |
| PolySpan.DirectProduct | lab5/lab5_opt_span.cpp:236-244 | the double loop below 65 coefficients gives the 2n-1 product coefficients |
| PolySpan.SumHalves | lab5/lab5_opt_span.cpp:253-268 | `A0A1`/`B0B1` have max(\|low\|, \|high\|) entries, the element-wise sum of the halves |
| PolySpan.Middle | lab5/lab5_opt_span.cpp:274-281 | z4 is z2 with z1 and then z0 subtracted entry by entry |
| PolySpan.Karatsuba | lab5/lab5_opt_span.cpp:232-298 | on spans of equal length n, exactly the 2n-1 product coefficients |
| PolySpan.KaratsubaMult | lab5/lab5_opt_span.cpp:385-395 | pads both operands without changing their values; the result is the padded product with degree lowered by 2, to 2·max(deg) |
| PolySpan.MultAsWritten | lab5/lab5_opt_span.cpp:385-395 | degree 2·max(deg1, deg2), and every coefficient the product coefficient of the unpadded operands |
| PolySpan.MultAsWrittenSameIff | lab5/lab5_opt_span.cpp:392-393 | that result `==` p1*p2 iff the two degrees are equal |
| PolySpan.MultAsWrittenUnequalDegrees | lab5/lab5_opt_span.cpp:393 | 1 times x is reported with degree 2, so it is not `==` their product |
| PolySpan.KaratsubaMultCorrected | lab5/lab5_opt_span.cpp:385-395 | with the degree set to deg1+deg2 the result `==` p1*p2 for all degrees |
| PolyCluster.SegmentMultiplicationInclusive | lab7/lab5_opt.cpp:185-199 | adds product coefficient k to result[k] exactly for k in [min, max], the upper end included |
| PolyCluster.Merge | lab7/lab5_opt.cpp:218-229 | node 0 overwrites (does not add) result[k] with buffer[k] for every reachable k in [start, start+inc], other cells unchanged |
| PolyCluster.ClusterIncrement | lab7/lab5_opt.cpp:207-208 | the width M/size, or 1 when that is 0, is positive |
| PolyCluster.Distribute | lab7/lab5_opt.cpp:210-231 | after node 0's window and each worker's merged window, cells up to the frontier hold the product and the rest 0 |
| PolyCluster.ClusterProduct | lab7/lab5_opt.cpp:201-240 | deg1+deg2+1 coefficients, and node 0's window always computes coefficient 0 correctly; which others are right is stated by ClusterCoversWhenRemainderSmall and ClusterMissesWhenRemainderLarge |
| PolyCluster.PolynomialMultiplicationMT | lab7/lab5_opt.cpp:201-240 | the result is the product up to the frontier and zero above it |
| PolyCluster.CeilIncrement | lab7/lab5_opt.cpp:207-208 | the width M/size rounded up is positive and size windows of it reach M |
| PolyCluster.PolynomialMultiplicationMTCorrected | lab7/lab5_opt.cpp:201-240 | with the rounded-up width the result is p1*p2 |
| PolyCluster.FrontierReaches | lab7/lab5_opt.cpp:211 | the windows reach past M or to size·inc |
| PolyCluster.FrontierAtMost | lab7/lab5_opt.cpp:211 | the windows never reach beyond size·inc |
| PolyCluster.ClusterCoversWhenRemainderSmall | lab7/lab5_opt.cpp:207-240 | when M < size or M mod size <= 1 the result is the full product |
| PolyCluster.FrontierBelowTop | lab7/lab5_opt.cpp:207-218 | when M >= size and M mod size >= 2 the windows stop below the top cell |
| PolyCluster.ClusterMissesWhenRemainderLarge | lab7/lab5_opt.cpp:207-240 | then a product with nonzero leading coefficients comes out wrong |
| PolyCluster.ClusterCheckedCall | lab7/lab5_opt.cpp:391-399 | the checked run (degree 10000 each, 4 ranks) covers every cell |
| PolyCluster.ClusterMissesTopCoefficient | lab7/lab5_opt.cpp:207-240 | x^2 times x^3 over 4 ranks leaves the x^5 coefficient 0 where the product has 1 |
| MatrixWork.ComputeElement | lab3/lab3.cpp:107-115 | the running sum over the row is the dot product of row `row` of m1 with column `column` of m2 |
| MatrixWork.Element | lab3/lab3.cpp:107-115 | the dot product of row r with column c: 0 for a zero row, non-negative for non-negative entries, one product for one term |
| MatrixWork.GenerateMatrices | lab3/lab3.cpp:117-129 | both operands have the fixed shapes (1024×512 and 512×1024), cell (i, j) = i·j + 1, and they conform |
| MatrixWork.GenerateMatrix | lab3/lab3.cpp:118-122 | one push_back loop builds `rows` rows of `columns` cells with i·j + 1 |
| MatrixWork.PosDivMod | lab3/lab3.cpp:224-225 | an offset splits into (offset / width, offset % width), a grid cell whose position is the offset |
| MatrixWork.PosNonNegative | lab3/lab3.cpp:224-225 | grid cells have non-negative positions |
| MatrixWork.PosBound | lab3/lab3.cpp:148-149 | cells of the earlier lines come before every position of a later line |
| MatrixWork.LineRange | lab3/lab3.cpp:149 | positions between (i, from) and (i, to) are exactly the cells of line i from `from` to `to` |
| MatrixWork.WalkExit | lab3/lab3.cpp:148-149 | a walk that left the last line or ran out of cells wrote exactly its window of positions |
| MatrixWork.RowByRow | lab3/lab3.cpp:145-156 | writes the product into exactly the next elementNum row-major cells from (startRow, startColumn), and leaves every other cell unchanged |
| MatrixWork.AlongRow | lab3/lab3.cpp:149-154 | fills row i from `column` while the count lasts, and resets the column to 0 |
| MatrixWork.ColumnByColumn | lab3/lab3.cpp:158-169 | the same in column-major order from (startColumn, startRow) |
| MatrixWork.AlongColumn | lab3/lab3.cpp:162-167 | fills column j from `row` while the count lasts, and resets the row to 0 |
| MatrixWork.Kth | lab3/lab3.cpp:171-183 | writes the product into exactly the cells with (i + j) mod tasks = order, and leaves every other cell unchanged |
| MatrixWork.VerifyResult | lab3/lab3.cpp:185-194 | passes (does not throw) iff every cell of `correct` equals the one in `result` |
| MatrixWork.SplitConsecutive | lab3/lab3.cpp:216-231 | task t+1's run starts where task t's run ends |
| MatrixWork.SplitCountNonNegative | lab3/lab3.cpp:217-222 | no task gets a negative count |
| MatrixWork.SplitCovers | lab3/lab3.cpp:208-231 | the runs start at 0 and the last one ends at rows·columns |
| MatrixWork.SplitDisjoint | lab3/lab3.cpp:216-231 | runs of distinct tasks never overlap |
| MatrixWork.SingleThread | lab3/lab3.cpp:469-479 | the single-threaded reference holds the product in every cell |
| MatrixWork.RowSplit | lab3/lab3.cpp:201-235 | the row-by-row workers together fill every cell with the product |
| MatrixWork.ColumnSplit | lab3/lab3.cpp:247-281 | the column-by-column workers, with offset % rows as start row, together fill every cell with the product |
| MatrixWork.KthSplit | lab3/lab3.cpp:293-310 | the k-th element workers for residues 0..tasks-1 together fill every cell with the product |
| MatrixWork.ThreadTest | lab3/lab3.cpp:197-320 | every scheme's result passes `verifyResult` |
| Hamiltonian.Successor | lab6/lab6.cpp:310 | the ring edge (i + 1) mod n stays among the n vertices and wraps to 0 only from n-1 |
| Hamiltonian.SeenIffInPrefix | lab6/lab6.cpp:131-143 | on a path filled up to pos and -1 after it, the scan up to the first -1 finds a vertex iff the filled part holds it |
| Hamiltonian.SimpleNoRepeat | lab6/lab6.cpp:159-172 | in a path that passes the count test, two slots hold different vertices |
| Hamiltonian.DistinctIsSimple | lab6/lab6.cpp:159-172 | a path without repeated entries passes the count test |
| Hamiltonian.Graph.constructor | lab6/lab6.cpp:116 | v vertices, every matrix cell false and every list empty |
| Hamiltonian.Graph.AddEdge | lab6/lab6.cpp:118-121 | sets exactly cell (u, v) and appends v to u's list (a duplicate too); matrix and lists still describe the same edges |
| Hamiltonian.Graph.HasEdge | lab6/lab6.cpp:127-129 | the matrix cell is true iff v is in u's adjacency list |
| Hamiltonian.Graph.IsSafe | lab6/lab6.cpp:131-143 | true iff the scan up to the first -1 does not meet the vertex and pos < verticesCount |
| Hamiltonian.Graph.VerifySolution | lab6/lab6.cpp:155-182 | true iff no vertex occurs twice and every consecutive pair is an edge; the closing edge is not checked |
| Hamiltonian.Graph.AtMostOnce | lab6/lab6.cpp:160-171 | the count loop for one vertex passes iff the vertex occurs at most once |
| Hamiltonian.Graph.RepeatBlocks | lab6/lab6.cpp:206 | a prefix that repeats a vertex has no Hamiltonian continuation |
| Hamiltonian.Graph.Exhausted | lab6/lab6.cpp:205-213 | when no neighbour of the last vertex continues a prefix, the prefix has no Hamiltonian continuation |
| Hamiltonian.Graph.Continues | lab6/lab6.cpp:205 | a Hamiltonian cycle that extends a prefix continues it with a neighbour of its last vertex |
| Hamiltonian.Graph.CompleteRejected | lab6/lab6.cpp:187-198 | a complete path without the closing edge or failing `verifySolution` is no Hamiltonian cycle |
| Hamiltonian.Graph.CloseCycle | lab6/lab6.cpp:187-198 | at pos = verticesCount, found iff the path with the closing edge is a Hamiltonian cycle |
| Hamiltonian.Graph.TryNeighbor | lab6/lab6.cpp:206-212 | on success the path is a cycle; otherwise the slot is reset and the neighbour starts no Hamiltonian continuation |
| Hamiltonian.Graph.HamiltonianUtilST | lab6/lab6.cpp:184-214 | found iff the prefix extends to a Hamiltonian cycle, which the path then holds; otherwise the path is unchanged |
| Hamiltonian.Graph.FindHamiltonianCycleST | lab6/lab6.cpp:285-295 | found iff some Hamiltonian cycle starts at the start vertex; the cycle found is one |
| Hamiltonian.Graph.GenerateHamiltonianCycle | lab6/lab6.cpp:297-326 | every vertex has its ring edge to (i + 1) mod n; with no unproductive neighbours the ring edges are the only ones |
| Hamiltonian.RingHasCycle | lab6/lab6.cpp:310 | the ring graph holds the cycle 0, 1, ..., n-1 from vertex 0 |
| Hamiltonian.RingEdges | lab6/lab6.cpp:310 | consecutive entries of 0..n-1, and the closing pair, are ring edges |
| Hamiltonian.SearchRing | lab6/lab6.cpp:329-341 | the search from vertex 0 of a generated ring finds a cycle of all n vertices starting at 0 |
| Inventory.NatToString | lab1/lab1.cpp:209 | `to_string` of a natural number is a nonempty run of decimal digits |
| Inventory.IntToString | lab1/entities.h:92-96 | `std::to_string` gives a nonempty text that starts with '-' exactly for a negative number, all digits after the sign; IntToStringRoundTrip reads it back |
| Inventory.ParseNatRoundTrip | lab1/lab1.cpp:209 | the digits read back give the number |
| Inventory.IntToStringRoundTrip | lab1/entities.h:92-96 | `to_string` of an int read back gives the int, so no two ints print alike |
| Inventory.Product.constructor | lab1/entities.h:35-36 | id, price, name and quantity as given; the initial quantity is the starting quantity |
| Inventory.Product.Purchase | lab1/entities.h:38-48 | takes min(amount, quantity), leaves max(quantity - amount, 0), and returns exactly what the stock went down by; nothing else changes |
| Inventory.Product.ToString | lab1/entities.h:90-98 | the text opens with "{ id: " and closes with " }"; what it prints under "initial quantity" is stated by ToStringIgnoresInitialQuantity |
| Inventory.ToStringIgnoresInitialQuantity | lab1/entities.h:90-98 | as written, two products differing only in their initial quantity print the same text |
| Inventory.ToStringCorrectedShowsInitialQuantity | lab1/entities.h:90-98 | with the initial quantity printed under its label, they print differently |
| Inventory.ShopBankAccount.constructor | lab1/entities.h:104 | the total starts at 0 |
| Inventory.ShopBankAccount.RegisterTransaction | lab1/entities.h:108-113 | the total grows by the amount |
| Inventory.Bill.constructor | lab1/entities.h:133-136 | no products and a value of 0 |
| Inventory.Bill.AddProduct | lab1/entities.h:150-162 | the entry for id grows by quantity (from 0 when absent), other entries stay, and the value grows by the unit price only |
| Inventory.Bill.AddProductCorrected | lab1/entities.h:150-162 | the same, with the value growing by quantity·price |
| Inventory.Bill.GetQuantityFor | lab1/entities.h:164-176 | the units billed for id, 0 for an id never added |
| Inventory.TalliesOf | lab1/entities.h:139-148 | one product map per bill, in order |
| Inventory.TotalsOf | lab1/entities.h:178-189 | one value per bill, in order |
| Inventory.SumForUpdate | lab1/entities.h:208-222 | replacing one bill's map changes the units of id by that bill's difference |
| Inventory.SumUpdate | lab1/entities.h:224-238 | replacing one bill's value changes the sum by the difference |
| Inventory.BillList.constructor | lab1/entities.h:196 | no bills |
| Inventory.BillList.RegisterBill | lab1/entities.h:199-206 | the bill is appended at the end |
| Inventory.BillList.GetTotalQuantityFor | lab1/entities.h:208-222 | the sum over the registered bills of their units of id |
| Inventory.BillList.GetTotalAmount | lab1/entities.h:224-238 | the sum of the bill values |
| Inventory.Stocks | lab1/lab1.cpp:60-66 | one stock per product id, read from that product |
| Inventory.TakingsUpdate | lab1/lab1.cpp:189-190 | changing one product's stock changes the takings by its change in revenue |
| Inventory.GetProducts | lab1/lab1.cpp:202-212 | ids 1..count, distinct fresh products, stock 100·id, price `rand() % 100 + 1` in 1..100, name "Product" followed by the id |
| Inventory.VerdictUnique | lab1/lab1.cpp:56-93 | a state has only one verdict: the first product, in ascending id order, whose two amounts differ |
| Inventory.Least | lab1/lab1.cpp:60 | a nonempty set of ids has a least element, where the ascending walk stops |
| Inventory.CompareProduct | lab1/lab1.cpp:65-85 | consistent iff price·(initial - quantity) equals price·(units billed); otherwise the mismatch report for the product |
| Inventory.InventoryCheck | lab1/lab1.cpp:56-93 | reports success iff every product balances, else the smallest unbalanced id with its figures |
| Inventory.InventoryCheckSlow | lab1/lab1.cpp:98-134 | the same verdict after locking every product |
| Inventory.ChecksAgree | lab1/lab1.cpp:56-134 | the two checks always reach the same verdict on one state |
| Inventory.Taken | lab1/lab1.cpp:189 | after a sale of amount units of key, that product's sold count grows by amount and no other stock changes |
| Inventory.SaleKeepsDrift | lab1/lab1.cpp:189-191 | moving amount units of key from the stock into a bill changes no product's sold-minus-billed drift |
| Inventory.SaleTakings | lab1/lab1.cpp:189-190 | a sale raises the takings by amount·price, as much as the account |
| Inventory.EmptyBillKeepsDrift | lab1/lab1.cpp:171-172 | registering an empty bill changes no drift |
| Inventory.SaleKey | lab1/lab1.cpp:184 | `rand() % size + 1` is always an id in the database |
| Inventory.TakeStock | lab1/lab1.cpp:186-189 | `purchase` on the product under key changes only that product's stock |
| Inventory.Record | lab1/lab1.cpp:190-191 | the account grows by amount·price, the bill's units of key by amount, its value by the unit price |
| Inventory.Sale | lab1/lab1.cpp:181-196 | one loop pass: the drift and the gap between account and takings stay the same; the bill value grows by the unit price |
| Inventory.RecordCorrected | lab1/lab1.cpp:190-191 | with the corrected `addProduct` the bill value and the account both grow by amount·price |
| Inventory.SaleCorrected | lab1/lab1.cpp:181-196 | with the corrected `addProduct` the sum of bill values minus the account stays the same |
| Inventory.UnitPriceExample | lab1/entities.h:159 | as written, a sale of two units at price 10 adds 10 to the bill and 20 to the account |
| Inventory.RegisterEmpty | lab1/lab1.cpp:171-172 | registering a new empty bill appends it and changes no drift |
| Inventory.SellAll | lab1/lab1.cpp:181-196 | the whole sale loop keeps every drift and the gap between account and takings |
| Inventory.ThreadWork | lab1/lab1.cpp:160-199 | registers one fresh bill, and the drift and the account gap stay the same |
| Inventory.UnsoldHasNoDrift | lab1/lab1.cpp:202-212 | before any sale and any bill no product drifts |
| Inventory.ReconciledIsConsistent | lab1/lab1.cpp:56-93 | without drift the only verdict is success |
| Inventory.RunThreads | lab1/lab1.cpp:231-239 | the sale threads, run one after another, leave no product drifting |
| Inventory.FinalCheck | lab1/lab1.cpp:249 | after sales without drift, the closing `inventoryCheck` succeeds |
| Inventory.SalesThenCheck | lab1/lab1.cpp:214-258 | fresh products, empty bills and account, all sales, then a successful check |
| HttpText.TrimEndBy | lab4/Lab4PDP/HttpParser/Parser.cs:70 | TrimEnd leaves a prefix of the text that does not end with a dropped character |
| HttpText.TrimEndByDrops | lab4/Lab4PDP/HttpParser/Parser.cs:70 | TrimEnd removes dropped characters only |
| HttpText.TrimStartBy | lab4/Lab4PDP/HttpParser/HttpHeaders.cs:45 | TrimStart leaves a suffix of the text that does not start with a dropped character |
| HttpText.TrimStartByDrops | lab4/Lab4PDP/HttpParser/HttpHeaders.cs:45 | TrimStart removes dropped characters only |
| HttpText.Trim | lab4/Lab4PDP/HttpParser/HttpHeaders.cs:45 | Trim leaves text no longer than the input, with no white space at either end |
| HttpText.TrimEmpty | lab4/Lab4PDP/HttpParser/HttpHeaders.cs:45 | Trim gives the empty text iff the text is all white space |
| HttpText.TrimClean | lab4/Lab4PDP/HttpParser/HttpHeaders.cs:45 | text without white space at its ends is unchanged by Trim |
| HttpText.TrimKeepsPrefix | lab4/Lab4PDP/HttpParser/Request/ParsedHttpRequest.cs:40 | Trim keeps a prefix that starts and ends with non-white characters |
| HttpText.TrimKeepsSuffix | lab4/Lab4PDP/HttpParser/Response/ParsedHttpResponse.cs:46 | Trim keeps a suffix that starts and ends with non-white characters |
| HttpText.TrimStartByPrefix | lab4/Lab4PDP/HttpParser/HttpHeaders.cs:45 | TrimStart skips leading dropped characters put in front |
| HttpText.TrimStartByKeepsTail | lab4/Lab4PDP/HttpParser/HttpHeaders.cs:45 | TrimStart of text holding a kept character leaves what follows untouched |
| HttpText.TrimEndBySuffix | lab4/Lab4PDP/HttpParser/Parser.cs:70 | TrimEnd skips trailing dropped characters put after the text |
| HttpText.TrimWhitePrefix | lab4/Lab4PDP/HttpParser/HttpHeaders.cs:45 | leading white space does not change the trimmed form |
| HttpText.TrimWhiteSuffix | lab4/Lab4PDP/HttpParser/HttpHeaders.cs:45 | trailing white space does not change the trimmed form |
| HttpText.IndexOf | lab4/Lab4PDP/HttpParser/HttpHeaders.cs:50 | Array.IndexOf: the first position of x, or -1 when x is absent |
| HttpText.IndexOfAt | lab4/Lab4PDP/HttpParser/HttpHeaders.cs:50 | the first occurrence is at i when s[i] is x and no earlier element is |
| HttpText.SplitOn | lab4/Lab4PDP/HttpParser/HttpHeaders.cs:43 | String.Split gives at least one piece |
| HttpText.SplitOnFirst | lab4/Lab4PDP/HttpParser/HttpHeaders.cs:43 | a split of a piece free of c, then c, starts with that piece |
| HttpText.SplitOnHead | lab4/Lab4PDP/HttpParser/HttpHeaders.cs:43 | the first piece is the text up to the first c, or all of it |
| HttpText.SplitOnPieces | lab4/Lab4PDP/HttpParser/HttpHeaders.cs:43 | no piece holds c, and there is one piece iff the text has no c |
| HttpText.SplitOnRoundTrip | lab4/Lab4PDP/HttpParser/HttpHeaders.cs:43 | joining the pieces with c gives the text back |
| HttpText.JoinSplitRoundTrip | lab4/Lab4PDP/HttpParser/Response/StatusLine.cs:17 | splitting pieces joined on c gives them back when none holds c |
| HttpText.JoinSnoc | lab4/Lab4PDP/HttpParser/Response/StatusLine.cs:32 | one more piece adds c and the piece at the end |
| HttpText.TerminatedSnoc | lab4/Lab4PDP/HttpParser/Response/StatusLine.cs:23-26 | one more loop pass appends the piece and the terminator |
| HttpText.TerminatedCons | lab4/Lab4PDP/HttpParser/Response/StatusLine.cs:23-26 | the first piece and its terminator come first |
| HttpText.TerminatedIsJoin | lab4/Lab4PDP/HttpParser/Response/StatusLine.cs:23-26 | with a one-character terminator the built text is the join plus the character once more |
| HttpText.BreakLength | lab4/Lab4PDP/HttpParser/Parser.cs:71 | the length of a separator at the start of s, and what it covers is a separator |
| HttpText.FirstBreak | lab4/Lab4PDP/HttpParser/Parser.cs:71 | a position where a separator starts, or the end |
| HttpText.FirstBreakIsFirst | lab4/Lab4PDP/HttpParser/Parser.cs:71 | no separator starts before that position |
| HttpText.SplitBreaks | lab4/Lab4PDP/HttpParser/Parser.cs:71 | Split with StringSplitOptions.None gives one piece more than separators |
| HttpText.SplitBreaksSeparators | lab4/Lab4PDP/HttpParser/Parser.cs:71 | every recorded separator is backslash-n, LF or CRLF |
| HttpText.SplitBreaksRoundTrip | lab4/Lab4PDP/HttpParser/Parser.cs:71 | the pieces with their separators put back give the text |
| HttpText.SplitBreaksEarliest | lab4/Lab4PDP/HttpParser/Parser.cs:71 | the split always takes the earliest separator |
| HttpText.FirstSegmentEnd | lab4/Lab4PDP/HttpParser/Parser.cs:71 | the first piece is the text before the first separator |
| HttpText.FirstPieceEarliest | lab4/Lab4PDP/HttpParser/Parser.cs:71 | the first piece with its separator holds no earlier separator |
| HttpText.SplitLines | lab4/Lab4PDP/HttpParser/Parser.cs:67-72 | TrimEnd of CR and LF, then the split, gives at least one line |
| HttpText.SplitLinesHaveNoLineFeed | lab4/Lab4PDP/HttpParser/Parser.cs:67-72 | no line holds a line feed |
| HttpText.NoCarriageReturnBeforeLineFeed | lab4/Lab4PDP/HttpParser/Parser.cs:71 | a piece followed by a bare LF does not end with CR, since CRLF would have matched first |
| HttpFields.Keys | lab4/Lab4PDP/HttpParser/HttpHeaders.cs:8 | the dictionary's keys, one per entry, in entry order |
| HttpFields.Put | lab4/Lab4PDP/HttpParser/HttpHeaders.cs:16-19 | an existing key keeps its place; a new key goes at the end; other entries stay |
| HttpFields.Without | lab4/Lab4PDP/HttpParser/HttpHeaders.cs:21-25 | removing an absent key changes nothing |
| HttpFields.LookupIsMembership | lab4/Lab4PDP/HttpParser/HttpHeaders.cs:8 | with one entry per key, a lookup finds v iff (key, v) is an entry |
| HttpFields.PutLookup | lab4/Lab4PDP/HttpParser/HttpHeaders.cs:16-19 | after the indexer assignment the key holds the value, other keys are unchanged, and keys stay distinct |
| HttpFields.PutDistinct | lab4/Lab4PDP/HttpParser/HttpHeaders.cs:16-19 | the entry (key, value) is present afterwards, with keys distinct |
| HttpFields.WithoutLookup | lab4/Lab4PDP/HttpParser/HttpHeaders.cs:21-25 | after removal the key is absent, others are unchanged, keys stay distinct |
| HttpFields.GetHeaderFails | lab4/Lab4PDP/HttpParser/HttpHeaders.cs:41-46 | a header line fails iff it has no colon, and then with an index out of range |
| HttpFields.GetHeader | lab4/Lab4PDP/HttpParser/HttpHeaders.cs:41-46 | fails with an index out of range exactly when the line has no colon; otherwise key and value are trimmed, with no white space at either end |
| HttpFields.GetHeaderRoundTrip | lab4/Lab4PDP/HttpParser/HttpHeaders.cs:41-46 | "key: value" reads back as (key, value) for a clean key without a colon; the value may hold colons |
| HttpFields.GetHeaderAt | lab4/Lab4PDP/HttpParser/HttpHeaders.cs:43-45 | a line whose first colon is at i splits there, both halves trimmed |
| HttpFields.TrimLeadingSpace | lab4/Lab4PDP/HttpParser/HttpHeaders.cs:45 | trimming a space put before clean text gives the text |
| HttpFields.DetectLastRowIndex | lab4/Lab4PDP/HttpParser/HttpHeaders.cs:48-52 | the line count iff no line is blank; otherwise one before the first blank line |
| HttpFields.ParsedRows | lab4/Lab4PDP/HttpParser/HttpHeaders.cs:33 | one parsed row per line |
| HttpFields.ParsedRowAt | lab4/Lab4PDP/HttpParser/HttpHeaders.cs:33 | row k is line k read by GetHeader |
| HttpFields.CollectedFails | lab4/Lab4PDP/HttpParser/HttpHeaders.cs:31-38 | the loop fails iff some row read fails, with that row's error |
| HttpFields.Collected | lab4/Lab4PDP/HttpParser/HttpHeaders.cs:27-39 | the collected headers have distinct keys and no Cookie entry; a failure is the error of some row read in 1..n-1 |
| HttpFields.HeadersOf | lab4/Lab4PDP/HttpParser/HttpHeaders.cs:27-39 | the headers of rows 1..LastIndex-1 have distinct keys and no Cookie entry; the only failure is an index out of range |
| HttpFields.HeadersFail | lab4/Lab4PDP/HttpParser/HttpHeaders.cs:27-46 | the headers fail iff a header row before LastIndex has no colon, with an index out of range |
| HttpFields.CollectedStaysFailed | lab4/Lab4PDP/HttpParser/HttpHeaders.cs:31-38 | once a row has failed, further rows keep that failure |
| HttpFields.CollectedFailedStep | lab4/Lab4PDP/HttpParser/HttpHeaders.cs:31-38 | a failure before one row is the result after it |
| HttpFields.CollectedLastWins | lab4/Lab4PDP/HttpParser/HttpHeaders.cs:31-38 | keys are distinct, Cookie is never stored, every other key holds the value of the last row declaring it |
| HttpFields.CollectedReadsPrefix | lab4/Lab4PDP/HttpParser/HttpHeaders.cs:31 | the loop up to n reads no row at or after n |
| HttpFields.LineBeforeBlankIgnored | lab4/Lab4PDP/HttpParser/HttpHeaders.cs:30-51 | the header row just before the blank line is never read |
| HttpFields.OnlyHeaderDropped | lab4/Lab4PDP/HttpParser/HttpHeaders.cs:51 | a response whose only header sits just before the blank line has no headers |
| HttpFields.HeaderLinesAppend | lab4/Lab4PDP/HttpParser/Response/ParsedHttpResponse.cs:38-41 | one more header adds its printed line at the end |
| HttpFields.HttpHeaders.Empty | lab4/Lab4PDP/HttpParser/HttpHeaders.cs:29 | no headers and LastIndex 0 |
| HttpFields.HttpHeaders.New | lab4/Lab4PDP/HttpParser/HttpHeaders.cs:11-14 | fails iff a header row fails, with that error; otherwise a fresh object with the collected headers and LastIndex |
| HttpFields.HttpHeaders.InitializeHeaders | lab4/Lab4PDP/HttpParser/HttpHeaders.cs:27-39 | LastIndex is set; the loop succeeds iff the headers parse, and then the headers are the collected ones |
| HttpFields.HttpHeaders.ReadRow | lab4/Lab4PDP/HttpParser/HttpHeaders.cs:33 | the row read is GetHeader of that line |
| HttpFields.HttpHeaders.AddHeader | lab4/Lab4PDP/HttpParser/HttpHeaders.cs:16-19 | the headers become Put of the old ones; LastIndex unchanged |
| HttpFields.HttpHeaders.RemoveHeader | lab4/Lab4PDP/HttpParser/HttpHeaders.cs:21-25 | the headers lose that key; LastIndex unchanged |
| HttpStatus.MatchesStatusCodeIff | lab4/Lab4PDP/HttpParser/Response/StatusLine.cs:38 | the unanchored [1-5]\d\d match succeeds iff some position starts a digit 1-5 and two digits |
| HttpStatus.MatchesStatusCode | lab4/Lab4PDP/HttpParser/Response/StatusLine.cs:38 | a match needs three characters, and a text that starts with [1-5]\d\d matches; MatchesStatusCodeIff gives the full unanchored search |
| HttpStatus.TrimAll | lab4/Lab4PDP/HttpParser/Response/StatusLine.cs:25 | one trimmed token per token |
| HttpStatus.ReasonIsJoin | lab4/Lab4PDP/HttpParser/Response/StatusLine.cs:23-26 | the reason phrase is the trimmed tokens joined by spaces plus a trailing space, never empty |
| HttpStatus.ReasonSnoc | lab4/Lab4PDP/HttpParser/Response/StatusLine.cs:25 | one more loop pass adds the trimmed token and a space |
| HttpStatus.NewStatusLine | lab4/Lab4PDP/HttpParser/Response/StatusLine.cs:15-27 | the constructor's steps give exactly the status line, or the exception, the specification function describes |
| HttpStatus.SetStatusCode | lab4/Lab4PDP/HttpParser/Response/StatusLine.cs:35-42 | the trimmed code when it contains a status code; the exception otherwise |
| HttpStatus.StatusCodeOf | lab4/Lab4PDP/HttpParser/Response/StatusLine.cs:35-42 | a success is trimmed, matches the pattern and is no longer than the input; the only failure is the status-code format error; clean text succeeds exactly when it matches |
| HttpStatus.ReadReasonPhrase | lab4/Lab4PDP/HttpParser/Response/StatusLine.cs:23-26 | the loop accumulates the reason phrase |
| HttpStatus.StatusLineOutcome | lab4/Lab4PDP/HttpParser/Response/StatusLine.cs:15-52 | index error iff no line; format error iff fewer than three tokens; code error iff the second token has no status code; otherwise version and code without spaces and a reason ending in a space |
| HttpStatus.StatusLineOf | lab4/Lab4PDP/HttpParser/Response/StatusLine.cs:15-33 | no lines gives an index out of range; the only failures are that, the status-line format and the status-code format; a success has a trimmed version and a trimmed, matching status code |
| HttpStatus.TrimWithin | lab4/Lab4PDP/HttpParser/Response/StatusLine.cs:37 | trimming adds no character |
| HttpStatus.StatusLineRoundTrip | lab4/Lab4PDP/HttpParser/Response/StatusLine.cs:15-52 | "version code phrase" of clean words parses back to those parts (the phrase gains a trailing space) iff the code matches; any version is accepted |
| HttpStatus.StatusLineOfParts | lab4/Lab4PDP/HttpParser/Response/StatusLine.cs:17-26 | the status line of a first line with the given version, code and reason tokens |
| HttpStatus.StatusLineTokens | lab4/Lab4PDP/HttpParser/Response/StatusLine.cs:17 | such a line splits into version, code and the words of the phrase |
| HttpStatus.TrimAllClean | lab4/Lab4PDP/HttpParser/Response/StatusLine.cs:25 | trimming clean words changes none |
| HttpStatus.ReasonOfCleanWords | lab4/Lab4PDP/HttpParser/Response/StatusLine.cs:23-26 | clean words make the phrase back with one trailing space |
| HttpResponse.ParseInt32 | lab4/Lab4PDP/HttpParser/Response/ParsedHttpResponse.cs:24 | int.Parse gives a 32-bit value, or a format or overflow error |
| HttpResponse.DigitChar | lab4/Lab4PDP/HttpParser/Response/ParsedHttpResponse.cs:24 | a digit character whose value is d |
| HttpResponse.Digits | lab4/Lab4PDP/HttpParser/Response/ParsedHttpResponse.cs:24 | a nonempty run of digits |
| HttpResponse.DigitsRoundTrip | lab4/Lab4PDP/HttpParser/Response/ParsedHttpResponse.cs:24 | reading the digits of n gives n |
| HttpResponse.ParseDecimal | lab4/Lab4PDP/HttpParser/Response/ParsedHttpResponse.cs:24 | int.Parse reads back any decimal integer, and overflows exactly outside 32 bits |
| HttpResponse.DecimalUntrimmed | lab4/Lab4PDP/HttpParser/Response/ParsedHttpResponse.cs:24 | int.Parse trims nothing from a decimal |
| HttpResponse.ContentLengthRoundTrip | lab4/Lab4PDP/HttpParser/Response/ParsedHttpResponse.cs:22-24 | a Content-Length header written in decimal is read back, or overflows |
| HttpResponse.ContentLengthOf | lab4/Lab4PDP/HttpParser/Response/ParsedHttpResponse.cs:22-24 | 0 without the header; a success is a 32-bit value; the only failures are the format and overflow errors of int.Parse |
| HttpResponse.LinesBetweenTerminated | lab4/Lab4PDP/HttpParser/Response/ParsedHttpResponse.cs:28-29 | the loop's text is the lines of the slice, each followed by "\n" |
| HttpResponse.ResponseBodyAfterBlank | lab4/Lab4PDP/HttpParser/Response/ParsedHttpResponse.cs:28-31 | the body holds the lines after the first blank line |
| HttpResponse.ResponseBodyOf | lab4/Lab4PDP/HttpParser/Response/ParsedHttpResponse.cs:26-31 | empty or ending in "\n", and empty when no line follows LastIndex + 1 |
| HttpResponse.ResponseBodyWithoutBlank | lab4/Lab4PDP/HttpParser/Response/ParsedHttpResponse.cs:28-31 | without a blank line the body is empty |
| HttpResponse.ResponseBodyRecoversLines | lab4/Lab4PDP/HttpParser/Response/ParsedHttpResponse.cs:28-31 | the lines after the blank line come back from the body split on "\n" |
| HttpResponse.ResponseFailureSteps | lab4/Lab4PDP/HttpParser/Response/ParsedHttpResponse.cs:16-24 | the first failure in order: the status line, the headers, then int.Parse of Content-Length |
| HttpResponse.ResponseFailure | lab4/Lab4PDP/HttpParser/Response/ParsedHttpResponse.cs:16-24 | the constructor raises only an index out of range, a status-line or status-code format error, or an int.Parse format or overflow error; without Content-Length, a valid status line and valid headers never fail |
| HttpResponse.ResponseTextStartsWithKey | lab4/Lab4PDP/HttpParser/Response/ParsedHttpResponse.cs:34-47 | the text starts with the first header's name and a colon |
| HttpResponse.ResponseText | lab4/Lab4PDP/HttpParser/Response/ParsedHttpResponse.cs:34-47 | the text has no white space at either end and is no longer than the header lines, NewLine and the body |
| HttpResponse.HeaderBlockStartsWithKey | lab4/Lab4PDP/HttpParser/Response/ParsedHttpResponse.cs:38-41 | before trimming, the text starts with the first header line |
| HttpResponse.ResponseTextWithoutHeaders | lab4/Lab4PDP/HttpParser/Response/ParsedHttpResponse.cs:43-46 | without headers the text is the trimmed body |
| HttpResponse.ResponseTextDropsLastLineFeed | lab4/Lab4PDP/HttpParser/Response/ParsedHttpResponse.cs:44-46 | the "\n" after the last body line does not reach the text |
| HttpResponse.ParsedHttpResponse.Make | lab4/Lab4PDP/HttpParser/Response/ParsedHttpResponse.cs:16-32 | sets the four properties |
| HttpResponse.ParsedHttpResponse.New | lab4/Lab4PDP/HttpParser/Response/ParsedHttpResponse.cs:16-32 | fails iff some step fails, with the first error; otherwise a fresh response holding the status line, the headers, the Content-Length and the body of the lines |
| HttpResponse.ParsedHttpResponse.ToString | lab4/Lab4PDP/HttpParser/Response/ParsedHttpResponse.cs:34-47 | every header as "key: value" and a new line, a new line, the body, all trimmed |
| HttpResponse.ParsedHttpResponse.ReadContentLength | lab4/Lab4PDP/HttpParser/Response/ParsedHttpResponse.cs:22-24 | 0 without the header, else int.Parse of its value |
| HttpResponse.ParsedHttpResponse.ReadBody | lab4/Lab4PDP/HttpParser/Response/ParsedHttpResponse.cs:26-31 | the lines from LastIndex + 2 on, each followed by "\n" |
| HttpResponse.ParseRawResponse | lab4/Lab4PDP/HttpParser/Parser.cs:46-65 | fails iff building the response from the split lines fails, with that error; otherwise the parsed response |
| HttpRequest.BodyFromUrlGetQuery | lab4/Lab4PDP/HttpParser/Request/RequestBody.cs:21-26 | no body iff the URL has no '?'; otherwise the text after the first '?' up to the next '?' or the end |
| HttpRequest.BodyFromUrlGet | lab4/Lab4PDP/HttpParser/Request/RequestBody.cs:21-26 | null exactly when the URL has no '?', and the query holds no '?' |
| HttpRequest.BodyFromPost | lab4/Lab4PDP/HttpParser/Request/RequestBody.cs:28-38 | the last line, and an index out of range exactly when there are no lines (the `index == -1` test never fires) |
| HttpRequest.RequestBodyOf | lab4/Lab4PDP/HttpParser/Request/RequestBody.cs:9-19 | only POST on no lines fails; GET always succeeds, null exactly without '?'; any other method leaves the body null |
| HttpRequest.BodyFromUrlGetRoundTrip | lab4/Lab4PDP/HttpParser/Request/RequestBody.cs:21-26 | the query of "path?query" is read back when neither holds '?' |
| HttpRequest.RequestBodyOfSplitLines | lab4/Lab4PDP/HttpParser/Request/RequestBody.cs:9-38 | on lines from SplitLines the body never fails, and a POST body is the last line |
| HttpRequest.ShownFilters | lab4/Lab4PDP/HttpParser/Request/ParsedHttpRequest.cs:26-32 | the printed headers are exactly those other than Method and HttpVersion |
| HttpRequest.ShownAppend | lab4/Lab4PDP/HttpParser/Request/ParsedHttpRequest.cs:28-32 | the filter keeps dictionary order |
| HttpRequest.PrintedSnoc | lab4/Lab4PDP/HttpParser/Request/ParsedHttpRequest.cs:28-32 | one more header prints its line unless it is ignored |
| HttpRequest.RequestTextStartsWithRequestLine | lab4/Lab4PDP/HttpParser/Request/ParsedHttpRequest.cs:19-41 | the text succeeds and starts with "method url version" |
| HttpRequest.RequestText | lab4/Lab4PDP/HttpParser/Request/ParsedHttpRequest.cs:19-41 | fails exactly when Method or HttpVersion is missing, Method first; the text has no white space at either end |
| HttpRequest.RequestTextIgnoresBodyUnlessPost | lab4/Lab4PDP/HttpParser/Request/ParsedHttpRequest.cs:34-38 | only a POST prints its body |
| HttpRequest.RequestHeadersLookup | lab4/Lab4PDP/HttpParser/Parser.cs:18-20 | the request line overrides Method and HttpVersion, other headers are kept, keys stay distinct |
| HttpRequest.ParsedRequestPrints | lab4/Lab4PDP/HttpParser/Request/ParsedHttpRequest.cs:21-22 | ToString of a parsed request never raises KeyNotFoundException |
| HttpRequest.ParsedHttpRequest.Make | lab4/Lab4PDP/HttpParser/Parser.cs:24-30 | sets Url, Headers and RequestBody |
| HttpRequest.ParsedHttpRequest.ToString | lab4/Lab4PDP/HttpParser/Request/ParsedHttpRequest.cs:19-41 | the request line, every header but the ignored two, for POST a new line and the body, all trimmed; a missing entry is a failure |
| HttpRequest.PrintHeaders | lab4/Lab4PDP/HttpParser/Request/ParsedHttpRequest.cs:28-32 | the foreach prints the line of every header that is not ignored, in order |
| HttpRequest.ParseRawRequest | lab4/Lab4PDP/HttpParser/Parser.cs:11-44 | fails iff the request line, the headers, the body or the Uri fails, with the first error; otherwise a fresh request holding the URL, the headers with Method and HttpVersion set, and the body |

## Left out

- MPI transport in lab8: tags, `MPI_Send`/`MPI_Recv` blocking, the listener thread, the `thread_finished` flag and the scripted `startDSM` driver are not modelled. A send is a packet appended to an outbox, and one node's messages are processed one at a time.
- Threads and thread pools: every `ThreadPool` class, the thread spawning and joining in `threadTest`/`threadPoolTest`, and the validator thread of lab1 are not modelled. The workers and sale threads run one after another. Interleavings, data races and lock ordering are not captured.
- Concurrent and distributed variants: `karatsuba_mt`/`karatsuba_mult_mt` in every lab5 file, the thread-pool `hamiltonianUtil` and `findHamiltonianCycle` of lab6, and lab7's MPI `karatsuba` (lab7/lab5_opt.cpp:242-375) and its worker ranks are not modelled. Only their sequential payloads are: the segments, the windows and the rank-0 merge.
- lab2 (a producer/consumer handshake over a mutex and a condition variable) is not part of this model.
- lab4 network and file code (the downloaders, Program.cs, DownloadTask.cs) is not part of this model.
- RequestLine.cs is not part of this model. `HttpRequest.ParseRawRequest` takes the request-line parser as a parameter, which returns the three parts or a failure.
- `new Uri(url)` is .NET library parsing. `HttpRequest.ParseRawRequest` takes it as a validity predicate on the URL.
- `Environment.NewLine` is a parameter (`nl`) of the ToString members; the lemmas that need it to be white space require `IsNewLine(nl)`.
- Exceptions and console output: an exception is the `Failure` of a `Result` and carries only its kind, not the message text. The log line written before rethrowing is left out.
- int.Parse is modelled for `NumberStyles.Integer` with the invariant culture. The culture's own sign symbols and the thousands separators are left out.
- SharedMemory.Dsm.Inspect: returns the visible cells as `Entry` records (index, value, subscribers in ascending order) instead of printing the `DSM { … }` text of lab8/lab8.cpp:131-152; the console formatting is not modelled.
- HttpResponse.ParseInt32: .NET's int.Parse also accepts trailing NUL ('\0') characters after the digits; the model rejects them as a format error.
- The regular expressions use ASCII digits for `\d`. .NET also matches the other Unicode decimal digits there.
- Dictionary order: the header dictionary is a sequence in insertion order, and a removed key's slot is not reused. .NET's enumeration order after a `Remove` is not specified.
- Randomness: `rand()` in `getProducts`, `threadWork` and `generateHamiltonianCycle` becomes a sequence of draws passed in. The timers, `Acout`, `printMatrix`, `printSolution` and `Polynomial::toString` are left out.
- Locks in lab1 are no-ops. The lock leak on the mismatch path of `inventoryCheckSlow` is not modelled.
- Fixed-width overflow: C++ `int` and `long long` arithmetic in the products, the sums and the bill totals uses unbounded integers. The ring identities are stated over the integers, so wrap-around at the configured sizes is not captured. The 32-bit range is modelled only where the source checks it (int.Parse).
- HttpStatus.NewStatusLine: the status line is a value set once by its constructor. `SetHttpVersion`'s pattern test is left out because its fallback value is always overwritten by the trimmed first token.
- Hamiltonian.Graph.GenerateHamiltonianCycle: with unproductive neighbours the contract states only the ring edges. The extra random edges, and the retries of draws that hit `i + 1` or an existing edge, are modelled in the body but not stated. The draws are a finite sequence: when it runs out, the remaining extra edges are not added, where the source would keep drawing.
- Inventory.Sale and Inventory.SellAll: the loop count `THREAD_OPERATIONS` (and its random multiplier) becomes the length of the draw sequence.
- PolyCluster.PolynomialMultiplicationMT: the ranks' MPI exchange is a sequential loop over the windows, each computed by the inclusive `segmentMultiplication` and merged by rank 0.

## Findings

| source | as written | input that shows it | evidently intended | confidence | as-written member | corrected member |
|---|---|---|---|---|---|---|
| lab7/lab5_opt.cpp:207-218 | the window width is M / size rounded down, and rank 0 hands out at most size windows, so cells past size·width are never computed | x^2 times x^3 on 4 ranks: M = 6, width 1, windows reach cell 4, and the x^5 coefficient stays 0 | width M / size rounded up, so that the windows reach every cell | not executed | PolyCluster.ClusterMissesTopCoefficient | PolyCluster.PolynomialMultiplicationMTCorrected |
| lab5/lab5_opt_span.cpp:385-395 | the result's degree is set to (2(x+1) - 1) - 1 - 2 = 2·max(deg1, deg2), which is deg1 + deg2 only for equal degrees | 1 times x: the result has degree 2, so it is not `==` the product x | the degree deg1 + deg2 | not executed | PolySpan.MultAsWrittenUnequalDegrees | PolySpan.KaratsubaMultCorrected |
| lab1/entities.h:150-162 | `addProduct` adds the unit price to the bill's value, whatever the quantity | a sale of 2 units at price 10 adds 10 to the bill and 20 to the shop account | the value grows by quantity·price, so the bill values add up to the account | not executed | Inventory.UnitPriceExample | Inventory.SaleCorrected |
| lab1/entities.h:90-98 | `toString` prints the current quantity under the "initial quantity" label | two products that differ only in their initial quantity print the same text | the initial quantity under its own label | not executed | Inventory.ToStringIgnoresInitialQuantity | Inventory.ToStringCorrectedShowsInitialQuantity |
