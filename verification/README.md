# Verified model of the order book, the ingestion streams, the captive-core session, the archive scan and StrKey

This project models four parts of the repository in Dafny and proves what they are for.

**Order book and path finding.** The order-book graph keeps offers and liquidity pools in two mirrored
edge tables over recycled integer ids and changes them in batches. `GraphState` says what it means for
such a state to represent a plain book of offers and pools; `OrderBookGraph` is the graph as a class whose
methods keep that relation; `OrderBookRuns` lifts it to every run and to two simple maps, and
`GraphVerification` shows which graphs pass the graph's own consistency check, what passing means, and that no
reachable graph fails it. `PriceArithmetic`, `Pools` and
`Venues` hold the exact rounding arithmetic, `BestExecution` what taking offers in price order achieves, `ContinuedFraction` the price parser, `PathSearch` the bounded
search with path nodes rewritten in place, and `PathFinding` the two searches on a graph.

**Ingestion.** `BucketStream` proves that the newest-to-oldest bucket stream with its seen-set agrees with an
oldest-to-newest replay; it rests on `LedgerKeys`, which proves when the compressed key encoding is injective.
`Changes` covers pairing, stable sorting and compaction of change logs, and `LedgerChangeReader` the
four-phase reader and the compacting reader.

**Captive core and archives.** `CaptiveCore` is the session protocol over an arbitrary meta pipe.
`Checkpoints`, `ArchivePaths` and `ArchiveScan` cover checkpoint arithmetic, directory prefixes and the
agreement of the listing scan with the per-checkpoint scan.

**StrKey.** `Base32` and `StrKey` prove that encoding and decoding are mutual inverses on text over the
base32 alphabet, and what the decoder does with other text.

Nine promises turned out not to hold on all inputs. Each is kept as the code has it, with an input at which it
fails and the exact condition under which it holds.

- Parsed prices keep both parts within 32 bits: not for negative prices, whose numerator is only bounded from above
  and then cut to 32 bits. The cut loses nothing iff the numerator is at least -2^31 (always for a price of -1 or
  more, never for one of -2^31 - 1 or less), so a negative price comes back exactly iff it has any
  32-bit form (`ContinuedFraction.Parse`; input: `NegativePriceWraps`).
- The amounts of the offer-consuming loops are true totals iff the totals fit in an int64 (`Venues.CostReported`,
  `Venues.YieldReported`; inputs: `WrappedCost`, `WrappedYield`).
- Applied ledgers strictly increase iff ledger 0 is applied at most once (`OrderBookRuns.LedgersRiseStrictly`; input:
  `LedgerZeroRepeats`).
- An application can panic: iff an earlier one was refused for its ledger and its batch was not discarded or
  cleared since, because the batch is marked committed before the ledger is checked
  (`OrderBookRuns.PanicsAfterRefusal`; input: `RefusedBatchPanics`).
- Ledgers accepted in one session are consecutive iff the 32-bit counter does not run out before the last one
  (`CaptiveCore.ChainConsecutive`; input: `CounterRunsOut`); in bounded sessions they always are.
- A range reported as prepared can be read from its start, with three exceptions stated in
  `CaptiveCore.CaptiveHcnetCore.PreparedIsReadable`; for a non-empty range from ledger 1 on, iff its start is cached, or
  the last runner started and the session does not end at ledger 0 (inputs:
  `EndsAtLedgerZero`, `FailedRestart`, `NothingCachedIsLedgerZero`).
- Reading a ledger hits a nil meta pipe iff the ledger is not cached, the request is not refused, and the last runner
  never started, because a failed start replaces the runner but keeps the old bookkeeping
  (`CaptiveCore.CaptiveHcnetCore.GetLedger`; input: `FailedRestart`).
- Text that decodes as a StrKey is the one the encoder prints iff it holds only characters of the base32 alphabet
  (`StrKey.EncodeAfterDecode`). The decoder also takes line breaks, which it drops, and the byte 0xff, which it takes for
  padding, since the pad character of an unpadded encoding is -1 compared as a byte (inputs: `LineBreaksIgnored`,
  `PadsIgnored`).
- Decoding a StrKey of any version indexes out of range iff the text decodes and, line breaks aside, starts with fewer
  than five alphabet characters or with exactly six (`StrKey.DecodeAnyPanics`; inputs: `LineBreaksPanic`, `PadsPanic`).

Data names that end in zero bytes collide in the compressed key encoding (`LedgerKeys.TrailingZeroCollides`);
`LedgerKeys.CompressIdentifies` says exactly which keys collide. The graph's consistency check does not look at
the price order of the lists, at sellers, or at vacant ids listed twice (`GraphVerification.WrongOrderPasses`);
`Verify` says exactly what it accepts and `PassedIsConsistent` what that implies. The comment on removing liquidity pools says
that the pool id alone decides; the code removes by asset pair, and so does the model.

What a ledger guarantees is assumed of the order book and the buckets: offers have a positive amount, positive
32-bit price parts and two different assets; pools have ordered assets, positive reserves and a fee below 10000 basis points; buckets
follow the CAP-20 rule for INITENTRY and hold no key twice. `dafny verify dfyconfig.toml` checks everything.

## Model

| member | source | states |
|---|---|---|
| `PriceArithmetic.MulFractionRoundDown` | price/main.go:181-198 | through the 128-bit words, the exact floor of x*n/d, division by zero iff d is 0, overflow iff the floor exceeds MaxInt64 |
| `PriceArithmetic.MulFractionRoundUp` | price/main.go:202-221 | the exact ceiling of x*n/d, with the carry of the word addition, and overflow iff it exceeds MaxInt64 |
| `PriceArithmetic.QuotientByWords` | price/main.go:181-221 | comparing the high word with the divisor decides exactly whether the quotient is too large; otherwise the word division is exact |
| `PriceArithmetic.ConversionExact` | price/main.go:151-177 | the conversion sells at most min(amount, needed), charges selling*n <= buying*d < selling*n + d, and fails only if that charge exceeds MaxInt64 |
| `PriceArithmetic.SellingBoundWithinAmount` | price/main.go:151-177 | rounding to whole buying units and back never sells more than the offer holds |
| `PriceArithmetic.SellingBoundLeast` | price/main.go:151-177 | the bound is the fewest units that are worth as many whole buying units as the entire offer |
| `ContinuedFraction.Approximate` | price/main.go:53-116 | for a rational of either sign, the expansion fails iff the price or its inverse is beyond 32 bits (for a negative one, iff it is at most 2^-31 below zero); otherwise the fraction is in lowest terms, no fraction with at most its denominator is closer, and it equals the price iff that has a 32-bit form (for a negative one, a 32-bit denominator); a price that is not negative has both parts within 32 bits; the loop terminates |
| `ContinuedFraction.Parse` | price/main.go:106-116 | the numerator is cut to 32 bits, which loses nothing iff it is at least -2^31: always for a price of -1 or more, never for one of -2^31 - 1 or less; a negative price is returned exactly iff it has any 32-bit form |
| `ContinuedFraction.NegativePriceWraps` | price/main.go:93-115 | an input where it is lost: the price -2000000000.5 is returned as 294967295/2, since only the upper bound of the numerator is checked |
| `ContinuedFraction.NegativeStep` | price/main.go:78-104 | after its integer part, a negative price is expanded in step with its fractional part |
| `ContinuedFraction.StepExpands` | price/main.go:72-104 | one step of the expansion keeps the price equal to the last two convergents applied to the tail |
| `ContinuedFraction.StepUnimodular` | price/main.go:72-104 | successive convergents keep determinant +1 or -1 |
| `ContinuedFraction.CutOffIsBest` | price/main.go:72-116 | where the expansion is cut off by the 32-bit bound, no fraction of at most that denominator beats the last convergent |
| `ContinuedFraction.RepresentableIsReached` | price/main.go:72-116 | if the price has a 32-bit form, the expansion ends exactly at it |
| `ContinuedFraction.LowestTerms` | price/main.go:72-116 | a convergent has no common factor |
| `ContinuedFraction.IntegerPartRoundsDown` | price/main.go:72-124 | a price cut off right after its integer part is at least as close to it as to the next integer |
| `Pools.PayoutGreatest` | exp/orderbook/pools.go:93-158 | y is at most the payout iff the fee-reduced deposit affords y: the payout is the greatest affordable withdrawal, with no 256-bit wrap |
| `Pools.ExpectationLeast` | exp/orderbook/pools.go:166-236 | x is at least the expectation iff x affords y: the expectation is the least sufficient deposit, and is refused iff none fits in an int64 |
| `Pools.PoolGalois` | exp/orderbook/pools.go:93-236 | payout(x) >= y iff x >= expectation(y), for 0 < y < Y and X + x within int64 |
| `Pools.PayoutAccepted` | exp/orderbook/pools.go:93-158 | a payout is refused iff X + x overflows an int64, and never exceeds the reserve |
| `Pools.TradesKeepProduct` | exp/orderbook/pools.go:93-236 | neither a payout nor an expectation lowers the product of the reserves |
| `Pools.AffordableKeepsProduct` | exp/orderbook/pools.go:93-236 | every affordable trade keeps (X + x)(Y - y) >= X*Y |
| `Pools.HopsAgree` | exp/orderbook/pools.go:45-85 | the two trade directions of the search agree on one pool: a deposit pays the wanted amount iff it is at least the quoted expectation |
| `Pools.TradeIsFair` | exp/orderbook/pools.go:45-85 | a deposit of either asset pays the most of the other that it affords and is refused iff the reserve would overflow; an expectation asks for the least sufficient deposit; neither lowers the product of the pool's own reserves |
| `Venues.ConsumeOffersForSellingAsset` | exp/orderbook/search.go:418-474 | the loop over offers with wrapping int64 totals charges the fills of a greedy strict receive, or answers -1; TakeGreedy, TakeFails and CostReported say which fills those are, when there are none, and when the charge is the true one |
| `Venues.ConsumeOffersForBuyingAsset` | exp/orderbook/search.go:476-540 | the loop over offers gives what the fills of a greedy strict send give for exactly the amount, or answers -1; SpendGreedy, SpendFails and YieldReported say which fills those are, when there are none, and when the yield is the true one |
| `Venues.TakeDelivers` | exp/orderbook/search.go:418-474 | a successful strict receive sells exactly the requested units in total, no offer gives more than it holds, each charge is the rounded-up price, and ignored sellers contribute nothing |
| `Venues.CapacityDecides` | exp/orderbook/search.go:418-474 | strict receive succeeds iff the capacity of the offers covers the request, when no single cost overflows |
| `Venues.TakeGreedy` | exp/orderbook/search.go:433-470 | strict receive exhausts every offer that counts before the next one is touched: each fill before the last sells the whole rounding-corrected offer (nothing for an ignored seller), the last one sells something within it, and each is charged its price rounded up |
| `Venues.TakeFails` | exp/orderbook/search.go:433-473 | strict receive fails iff the offers together sell less than the need, or the units taken at some offer on the way cost more than an int64 holds |
| `Venues.SpendConserves` | exp/orderbook/search.go:476-540 | a successful strict send spends exactly what it was given, and no offer gives more than it holds or than it is paid for |
| `Venues.SpendGreedy` | exp/orderbook/search.go:489-535 | every fill of strict send before the last is a whole rounding-corrected offer, of which the money left could buy more than there is; the last one spends exactly the rest, on such a whole offer or on the greatest number of units the rest pays for |
| `Venues.SpendFails` | exp/orderbook/search.go:489-539 | strict send fails iff, after some offers bought whole, the money left pays for no unit of the next offer or there is no offer left |
| `Venues.CostReported` | exp/orderbook/search.go:418-474 | strict receive reports the true cost of its fills iff that cost fits in an int64 |
| `Venues.YieldReported` | exp/orderbook/search.go:476-540 | strict send reports the true yield of its fills iff that yield fits in an int64 |
| `Venues.WrappedCost` | exp/orderbook/search.go:418-474 | three valid offers that together are reported at less than the cost of one of them |
| `Venues.WrappedYield` | exp/orderbook/search.go:476-540 | three valid offers that together are reported to give less than one of them does |
| `Venues.PositiveMin` | exp/orderbook/utils.go:14-24 | the smaller amount, where a non-positive amount stands for none |
| `Venues.PoolAmountExact` | exp/orderbook/search.go:329-337 | the pool of an edge asks for the least of the other asset that affords the wanted amount, and for nothing iff no int64 does; it pays the most of the other asset that the spent amount affords, and nothing iff the reserve overflows; excluded pools count for nothing |
| `Venues.OfferAmountExact` | exp/orderbook/search.go:418-540 | the offers of an edge answer with the total of their fills modulo 2^64, and with -1 when they cannot fill the amount, or 0 when there are none |
| `Venues.ProcessVenues` | exp/orderbook/search.go:542-577 | pool first, then offers: the amount of one edge, or the error; PoolAmountExact, OfferAmountExact and EdgeTakesBetterVenue say which amount that is |
| `Venues.VenuesNeverFail` | exp/orderbook/search.go:542-577 | on valid venues and a positive amount no error is reachable and the amount fits in int64 |
| `Venues.EdgeTakesBetterVenue` | exp/orderbook/search.go:542-577 | an edge yields the better of its pool and its offers, and yields something iff one of them does |
| `BestExecution.CheapestFirst` | exp/orderbook/search.go:433-470 | on a list in price order, no other distribution of the same units over the offers that count is worth less than the fills of strict receive, and their charge exceeds the cheapest worth by at most one unit a fill |
| `BestExecution.MostForTheMoney` | exp/orderbook/search.go:489-535 | on a list in price order, a distribution that the spent amount pays for at unrounded prices gives at most one unit more than strict send, and what one unit of money for each fill buys at the last price |
| `BestExecution.ExchangeCosts` | exp/orderbook/search.go:418-540 | moving units from cheaper to dearer offers costs at least the price in between for each unit gained |
| `OrderBookTypes.CheaperTransitive` | xdr/price.go:23-35 | the cross-multiplied price comparison is a strict weak order on positive 32-bit prices |
| `OrderLists.InsertPosition` | exp/orderbook/edges.go:34-51 | the insertion point puts an offer behind all offers that are not more expensive |
| `OrderLists.PriceTimePriority` | exp/orderbook/edges.go:34-51 | every list is in price order, with ties in the order in which the offers became live |
| `OrderLists.ListedMembers` | exp/orderbook/edges.go:34-94 | a list holds exactly the live offers of its pair |
| `OrderLists.RemoveInsertCommute` | exp/orderbook/edges.go:34-94 | inserting one offer and removing another commute |
| `OrderLists.ListedWithout` | exp/orderbook/edges.go:65-94 | removing an offer from the live offers removes exactly it from its list |
| `EdgeSets.FindEdge` | exp/orderbook/edges.go:24-31 | the linear search finds the edge of a key iff there is one |
| `EdgeSets.SearchInsertIndex` | exp/orderbook/edges.go:34-51 | the binary search finds the place that keeps price order with the new offer last among equals |
| `EdgeSets.AddOffer` | exp/orderbook/edges.go:34-51 | the offer goes to its sorted place under its key and nothing else changes |
| `EdgeSets.AddPool` | exp/orderbook/edges.go:54-61 | the pool is set under its key and nothing else changes |
| `EdgeSets.RemoveOffer` | exp/orderbook/edges.go:65-94 | reports presence; removes exactly that offer, and the edge when nothing is left on it |
| `EdgeSets.RemovePool` | exp/orderbook/edges.go:96-108 | the pool is cleared under its key, and the edge when nothing is left on it |
| `EdgeSets.Reallocate` | exp/orderbook/edges.go:116-123 | copying the shrunk lists changes no content |
| `GraphState.RecycleStep` | exp/orderbook/graph.go:533-557 | reusing a vacant id keeps the graph representing the same book |
| `GraphState.ExtendStep` | exp/orderbook/graph.go:533-557 | a new id with empty rows keeps the graph representing the same book |
| `GraphState.ForgetStep` | exp/orderbook/graph.go:559-572 | giving up an id without edges keeps ids and assets in bijection and every vacant id listed once |
| `GraphState.InsertStep` | exp/orderbook/graph.go:575-594 | inserting into both mirrored cells represents the book with the offer added |
| `GraphState.RemoveStep` | exp/orderbook/graph.go:626-648 | removing from both mirrored cells represents the book without the offer |
| `GraphState.AddPoolStep` | exp/orderbook/graph.go:607-623 | setting the pool in four cells and the index represents the book with the pool |
| `GraphState.RemovePoolStep` | exp/orderbook/graph.go:651-672 | clearing the pool in four cells and the index represents the book without it |
| `GraphState.Cell` | exp/orderbook/graph.go:533-672 | the two tables always hold the same, price-sorted offers for a pair of ids |
| `OrderBookGraph.OrderBookGraph.GetOrCreateAssetID` | exp/orderbook/graph.go:533-557 | a known asset keeps its id; a new one gets the last vacant id, or a new row when none is vacant; every other id and the represented book stay |
| `OrderBookGraph.OrderBookGraph.MaybeDeleteAsset` | exp/orderbook/graph.go:559-572 | an id without edges becomes vacant; no other id changes |
| `OrderBookGraph.OrderBookGraph.AddOffer` | exp/orderbook/graph.go:575-594 | adds or replaces the offer in the represented book, and never fails |
| `OrderBookGraph.OrderBookGraph.RemoveOffer` | exp/orderbook/graph.go:626-648 | removes the offer from the represented book; reports absence iff the book lacks it |
| `OrderBookGraph.OrderBookGraph.AddPool` | exp/orderbook/graph.go:607-623 | sets the pool of its asset pair in the represented book |
| `OrderBookGraph.OrderBookGraph.RemovePool` | exp/orderbook/graph.go:651-672 | clears the pool of the asset pair in the represented book |
| `OrderBookGraph.OrderBookGraph.QueueOperation` | exp/orderbook/batch.go:35-73 | queueing appends to the batch and changes nothing else |
| `OrderBookGraph.OrderBookGraph.Discard` | exp/orderbook/graph.go:139-141 | the batch is replaced by a new one |
| `OrderBookGraph.OrderBookGraph.Clear` | exp/orderbook/graph.go:508-521 | the graph represents the empty book again, with no ledger and a new batch |
| `OrderBookGraph.OrderBookGraph.Apply` | exp/orderbook/batch.go:76-126 | exactly when it panics, refuses the ledger or applies; the applied book is the fold of the operations, and the missing-offer panics are unreachable |
| `OrderBookGraph.OrderBookGraph.ReallocateRows` | exp/orderbook/batch.go:121-124 | the copies made after a batch keep the graph representing the same book |
| `OrderBookRuns.Drive` | exp/orderbook/batch.go:76-126 | for every sequence of queued updates, discards, applications and clears, the graph stays consistent and in step with the simple machine, outcome by outcome |
| `OrderBookRuns.LedgersRise` | exp/orderbook/batch.go:86-88 | in every run each applied ledger exceeds all earlier ones, except that ledger 0 may follow ledger 0 |
| `OrderBookRuns.LedgersRiseStrictly` | exp/orderbook/batch.go:86-88 | the applied ledgers strictly increase iff ledger 0 was applied at most once |
| `OrderBookRuns.LedgerZeroRepeats` | exp/orderbook/batch.go:86-88 | a concrete run that applies ledger 0 twice |
| `OrderBookRuns.PanicsAfterRefusal` | exp/orderbook/batch.go:80-88 | an application panics iff an earlier one was refused and its batch was neither discarded nor cleared since |
| `OrderBookRuns.RefusedBatchPanics` | exp/orderbook/batch.go:80-88 | a run of three applications whose outcomes are applied, refused and panic |
| `OrderBookRuns.BookIsFold` | exp/orderbook/batch.go:92-117 | the book of a run is the fold of the operations applied since the last clear |
| `OrderBookRuns.RunIsSimpleMaps` | exp/orderbook/batch.go:92-117 | after every run the offers are the map by id, and the pools the map by asset pair, got by folding the applied operations |
| `OrderBookRuns.TablesHoldTheMap` | exp/orderbook/graph.go:575-648 | an offer is in the table cell of its two assets iff the map holds it under its id |
| `OrderBookRuns.DriveAndVerify` | exp/orderbook/graph.go:171-450 | after every run the graph passes its own consistency check, which returns exactly the offers of the folded map |
| `GraphVerification.Verify` | exp/orderbook/graph.go:171-450 | on any graph whose edge keys are in range, the check succeeds iff the graph passes: rows, names, indices, pools, counts and vacant ids as the source compares them; it then returns the offers of the selling table, each once, and one pool for each pool id |
| `GraphVerification.RepresentedPasses` | exp/orderbook/graph.go:171-450 | no graph that represents a book fails the check, whose offers and pools are then exactly those of the book |
| `GraphVerification.PassedIsConsistent` | exp/orderbook/graph.go:171-450 | a passed check means that either table holds each offer once, both hold the same offers apart from sellers, the trading pairs index exactly these under the ids of their assets, no asset has two ids, and the vacant ids are those without a name if none is listed twice |
| `GraphVerification.WrongOrderPasses` | exp/orderbook/graph.go:197-450 | a graph that passes although its lists are out of price order, so that it represents no book: the order is not looked at |
| `GraphVerification.VerifySelling` | exp/orderbook/graph.go:197-329 | the selling pass succeeds iff vacant ids have no edges, every name maps back to its id, every edge is fine and no offer id is met twice; it gathers every offer and pool and the vacant ids |
| `GraphVerification.VerifyBuying` | exp/orderbook/graph.go:339-433 | the buying pass succeeds iff vacant ids have no edges, every edge is fine, every offer was noted with the same terms, every pool id was noted, and no offer id is met twice |
| `GraphVerification.VerifyPool` | exp/orderbook/graph.go:278-322 | a pool is accepted iff it lies between the row and the key of its edge, is indexed, and its assets have those ids |
| `GraphVerification.TableComplete` | exp/orderbook/graph.go:171-450 | each table holds every live offer exactly once and nothing else |
| `PathSearch.PathNode.Contains` | exp/orderbook/search.go:93-100 | walking the links decides membership in the path they spell |
| `PathSearch.PathNode.Path` | exp/orderbook/search.go:109-119 | the path from the source, in order |
| `PathSearch.ReversePath` | exp/orderbook/search.go:102-107 | the swapping loop reverses the path |
| `PathSearch.ExtendPath` | exp/orderbook/search.go:183-219 | extending a good path over a yielding edge to a new asset gives a good path carrying the yield |
| `PathSearch.Search.StartUpdate` | exp/orderbook/search.go:191-204 | the first improvement of an asset in a round gets its own node; every best path and pending path keeps its meaning |
| `PathSearch.Search.RedirectUpdate` | exp/orderbook/search.go:191-207 | overwriting prev in place changes no best path and no other pending path |
| `PathSearch.Search.Record` | exp/orderbook/search.go:191-219 | a better amount is taken over, and reported with its exact path if it is wanted |
| `PathSearch.Search.RelaxEdge` | exp/orderbook/search.go:164-220 | one edge: amounts only improve, the edge is relaxed afterwards, and no error arises |
| `PathSearch.Search.RelaxAll` | exp/orderbook/search.go:154-221 | all edges of a round are relaxed with respect to what was held at its start, in the last round those to terminal assets |
| `PathSearch.Search.Commit` | exp/orderbook/search.go:223-231 | the pending paths become the best paths, which are frozen from then on |
| `PathSearch.Search.Round` | exp/orderbook/search.go:154-232 | after a non-final round no amount is worse and every edge from an asset held at its start to an asset not on its path is relaxed |
| `PathSearch.Search.RunRounds` | exp/orderbook/search.go:154-232 | all maxPathLength rounds run: for each of them there is a record of what was held at its start, beginning with the source alone, on sound paths; in every round each edge from a held asset to one off its path is relaxed into the next record (in the last, the edges to wanted assets), and every wanted target of such a hop has a result at least as good |
| `PathSearch.ToPayment` | exp/orderbook/search.go:289-390 | the payment that a found path stands for, in either direction |
| `PathSearch.RunSearch` | exp/orderbook/search.go:121-235 | the search ends early only if its context may be cancelled, and never with an error; every result visits no asset twice, has at most maxPathLength hops over existing venues and carries exactly the folded amount; later results for an asset are better; round by round, no wanted hop off a held asset is missed, so none within two trades of the source is |
| `PathSearch.HistoryThenTrades` | exp/orderbook/search.go:154-232 | the records of the rounds make every wanted asset within one or two trades of the source a result at least as good as those trades |
| `PathSearch.NeighbourHeld` | exp/orderbook/search.go:154-221 | after the first round every asset that the source trades for is held, with an amount at least as good as that trade |
| `PathFinding.GraphIsSearchable` | exp/orderbook/search.go:121-235 | both tables of every graph that represents a book can be searched |
| `PathFinding.SoundIsHonest` | exp/orderbook/search.go:289-390 | a sound result is a payment each of whose hops is backed by a live offer or a pool of the book |
| `PathFinding.FlowIsBookFlow` | exp/orderbook/search.go:121-235 | the amount along a path of ids is the fold of the trades of the plain book, hop by hop over its price-time lists and pools |
| `PathFinding.BookEdgeInOrder` | exp/orderbook/edges.go:34-51 | the offers of every trade of the book come in price order, and its pool is one between the two assets, so that the statements about venues hold of it |
| `PathFinding.DirectTradeFound` | exp/orderbook/search.go:154-221 | a wanted asset that the book trades directly is found at least as well |
| `PathFinding.TwoTradesFound` | exp/orderbook/search.go:154-221 | a wanted asset that two trades of the book reach over any third asset is found, at least as well as those trades on the asset held in between |
| `PathFinding.SearchGraph` | exp/orderbook/search.go:121-235 | searching a reachable graph never fails, yields only such payments, with the amounts of the book, and misses no trade, no two trades in a row and not the asset itself |
| `PathFinding.FindPaths` | exp/orderbook/graph.go:712-758 | strict receive: every payment delivers exactly the amount of the destination asset, starts with a given asset within the balance given last for it when that is asked for, trades only what the book holds, and costs exactly the fold of the trades of the book; a given asset whose balance covers the amount itself, one trade, or two trades in a row over any third asset always starts a payment that costs no more |
| `PathFinding.FindFixedPaths` | exp/orderbook/graph.go:809-851 | strict send: every payment spends exactly the amount of the source asset, ends in a given asset, trades only what the book holds, and gives exactly the fold of the trades of the book; a given asset that the amount is, buys directly, or buys by two trades in a row over any third asset always ends a payment that gives no less |
| `BucketStream.ReadBatch` | ingest/checkpoint_change_reader.go:317-347 | a batch is the next run of at most the preload size of entries |
| `BucketStream.CheckpointChangeReader.ProcessEntry` | ingest/checkpoint_change_reader.go:391-497 | one entry: META, LIVE, INIT and DEAD handling, the seen-set and the output |
| `BucketStream.CheckpointChangeReader.StreamBucketContents` | ingest/checkpoint_change_reader.go:286-510 | refilling and draining batches processes the bucket entry by entry, and stops where the first error is |
| `BucketStream.CheckpointChangeReader.StreamBuckets` | ingest/checkpoint_change_reader.go:153-217 | reports the first undecodable hash, or the first bucket that is unknown, missing or without a size, and nothing else; otherwise streams exactly the listed buckets, and for a new reader on a sound list delivers exactly the entries of the oldest-to-newest replay, each key once |
| `BucketStream.CheckpointChangeReader.StreamAll` | ingest/checkpoint_change_reader.go:211-216 | the buckets are streamed newest to oldest until one stops the stream |
| `BucketStream.CollectNames` | ingest/checkpoint_change_reader.go:164-180 | the hashes of all levels in order, curr before snap, without the zero hashes; none iff one does not decode |
| `BucketStream.CheckBuckets` | ingest/checkpoint_change_reader.go:182-209 | the buckets under these hashes, or the fault of the first that cannot be read |
| `BucketStream.RunSound` | ingest/checkpoint_change_reader.go:286-510 | an undamaged bucket is streamed without error: what it adds to the output and to the seen-set |
| `BucketStream.SeenDecides` | ingest/checkpoint_change_reader.go:450-492 | for a key that occurs alive, being in the seen-set is the same as occurring in a newer bucket, although INIT keys are never put there |
| `BucketStream.DeadBelowInit` | ingest/checkpoint_change_reader.go:467-484 | by CAP-20, the next older entry of a key seen as INITENTRY is a DEADENTRY |
| `BucketStream.StreamedPrefix` | ingest/checkpoint_change_reader.go:153-217 | after any number of buckets, exactly the entries alive in the newest bucket that mentions them have been emitted |
| `BucketStream.StreamAgreesWithReplay` | ingest/checkpoint_change_reader.go:130-217 | for every sound bucket list, the newest-to-oldest stream emits each live key once and exactly the entries left by an oldest-to-newest replay |
| `Changes.ApplyKeywise` | ingest/change.go:102-147 | the final value under a key depends only on the changes of that key |
| `Changes.KeywiseEqual` | ingest/change.go:102-147 | logs with the same changes per key, in the same order per key, are equally valid and equally effective |
| `Changes.StableSortSorts` | ingest/change.go:102-147 | the stable sort orders by key and keeps the order of the changes of each key |
| `Changes.SortChanges` | ingest/change.go:102-147 | the in-place insertion computes the stable sort of the array |
| `Changes.GetChangesFromLedgerEntryChanges` | ingest/change.go:65-100 | pairing state records with what follows, then sorting; it fails iff an update or removal has no state record before it |
| `Changes.TransformPreservesMeaning` | ingest/change.go:65-147 | for truthful records the sorted changes are a valid log with the same effect |
| `Changes.ChangeCompactor.AddChange` | ingest/change_compactor.go:77-227 | the nine combinations of cached and new change: which are errors, and what the cache becomes |
| `Changes.ChangeCompactor.GetChanges` | ingest/change_compactor.go:231-239 | one change per cached key, in any order |
| `Changes.CompactStep` | ingest/change_compactor.go:77-227 | one change that fits the current store is accepted and keeps the cache a summary from the starting store |
| `Changes.CompactLog` | ingest/change_compactor.go:77-227 | a whole valid log is accepted and summarised |
| `Changes.CompactionPreservesMeaning` | ingest/change_compactor.go:77-239 | for any valid log, compaction never errors; its changes have distinct keys, start from the starting values, end in the final ones, and applied in any order have the effect of the log |
| `LedgerChangeReader.GetChanges` | ingest/ledger_transaction.go:36-103 | the changes of a transaction, group after group, or the unsupported-version error |
| `LedgerChangeReader.ChangesByVersion` | ingest/ledger_transaction.go:36-103 | by version: the changes of the transaction come first, then those of each operation in order, then, from version 2 on, the changes after them; only the first remain for an internal error up to protocol 12; version 0 and unknown ones cannot be read |
| `LedgerChangeReader.LedgerChangeReader.ReadTransaction` | ingest/ledger_transaction_reader.go:55-61 | the cursor yields the transactions in order and then the end |
| `LedgerChangeReader.LedgerChangeReader.Rewind` | ingest/ledger_transaction_reader.go:64-66 | the cursor starts over |
| `LedgerChangeReader.LedgerChangeReader.constructor` | ingest/ledger_change_reader.go:52-77 | a new reader has to deliver all fee changes, then all meta changes, then the sorted evictions, then the upgrade changes |
| `LedgerChangeReader.LedgerChangeReader.Read` | ingest/ledger_change_reader.go:132-210 | each call delivers the next of the remaining changes or errors, and the end forever once nothing remains; the recursion terminates |
| `LedgerChangeReader.CompactingChangeReader.CompactInput` | ingest/ledger_change_reader.go:85-102 | drains the input; succeeds iff the input holds no error and compacts, and then holds its compaction |
| `LedgerChangeReader.CompactingChangeReader.Read` | ingest/ledger_change_reader.go:104-116 | delivers the compacted changes one by one, then the end |
| `LedgerChangeReader.CompactedReading` | ingest/ledger_change_reader.go:85-116 | on a valid log the compacting reader never errors, and what it delivers has the effect of the log |
| `LedgerChangeReader.GroupsMeaning` | ingest/change.go:65-147 | the sorted changes of groups that are each truthful for the store they meet are a valid log with the effect of replaying the groups |
| `LedgerChangeReader.EventsAreGroups` | ingest/ledger_change_reader.go:132-210 | what a reader has to deliver is the changes of the groups of the ledger: fees, metas, evictions, upgrades |
| `LedgerChangeReader.LedgerMeaning` | ingest/ledger_change_reader.go:85-210 | end to end: if every group of raw records of a ledger is truthful, the delivered log is valid, has the effect of replaying all groups in order, and so has what the compacting reader delivers, with one change per entry |
| `LedgerKeys.TrimRightZeros` | xdr/trust_line_asset.go:45-56 | the prefix up to the last non-zero byte |
| `LedgerKeys.EncodingBuffer.LedgerKeyCompressEncodeTo` | xdr/ledger_key.go:213-268 | appends exactly the compressed form |
| `LedgerKeys.EncodingBuffer.AssetTrustlineCompressEncodeTo` | xdr/trust_line_asset.go:58-84 | appends exactly the compressed asset |
| `LedgerKeys.EncodingBuffer.AccountIdCompressEncodeTo` | xdr/account_id.go:62-73 | appends exactly the compressed account |
| `LedgerKeys.EncodingBuffer.LedgerKeyUnsafeMarshalBinaryCompress` | xdr/main.go:236-243 | the buffer is reset, so the result is the compressed form alone |
| `LedgerKeys.TrimmedInjective` | xdr/trust_line_asset.go:45-56 | trimming loses nothing on codes of one length |
| `LedgerKeys.CompressAssetInjective` | xdr/trust_line_asset.go:58-84 | trimmed codes before an issuer, without lengths, still identify the asset |
| `LedgerKeys.CompressIdentifies` | xdr/ledger_key.go:213-268 | two keys have the same bytes iff they have the same identity: the offer id for offers, the name without trailing zeros for data |
| `LedgerKeys.CompressInjective` | xdr/ledger_key.go:213-268 | so bytes and keys correspond one to one when offer ids determine sellers and data names have no trailing zeros |
| `LedgerKeys.FirstByteDecides` | xdr/ledger_key.go:213-268 | the first byte of a compressed key tells its kind, and that of a compressed asset the kind of the asset |
| `LedgerKeys.TrailingZeroCollides` | xdr/ledger_key.go:226-236 | two different data keys with the same bytes, for every name |
| `CaptiveCore.FirstReplayStartsRun` | ingest/ledgerbackend/captive_core_backend.go:29-37 | a catchup streams from the ledger that starts the run of checkpoint length which holds the ledger: a multiple of the frequency at most one frequency below it; ledger 2 for the first run, and the last full frequency of numbers for the run that 32 bits cut off |
| `CaptiveCore.RunFromAnchored` | ingest/ledgerbackend/captive_core_backend.go:357-429 | an online run starts at or before the ledger asked for, anchored on the true hash of the ledger it starts from, and without a stored hash below the archive root |
| `CaptiveCore.RunFromStart` | ingest/ledgerbackend/captive_core_backend.go:357-429 | an online run starts exactly one ledger before the one asked for (ledger 2 within the first checkpoint), or one before the last ledger of the archive when that is lower and neither a database nor a stored hash anchors the run |
| `CaptiveCore.RunFromRefused` | ingest/ledgerbackend/captive_core_backend.go:357-429 | each error of an online start iff its condition: ledger 1 asked for, no archive root, a target more than two checkpoints past the root on 32 bits, a failing hash store, or no header of the anchoring ledger |
| `CaptiveCore.OpeningAllowed` | ingest/ledgerbackend/captive_core_backend.go:287-429 | a bounded range opens iff both ends are within the archive, an unbounded one iff none of those conditions holds |
| `CaptiveCore.CounterDecides` | ingest/ledgerbackend/captive_core_backend.go:627-664 | comparing with the counter and the stored hash accepts a ledger iff it extends the ledgers accepted so far |
| `CaptiveCore.AcceptKeepsStep` | ingest/ledgerbackend/captive_core_backend.go:666-673 | accepting a ledger keeps counter and hash those of the last accepted one |
| `CaptiveCore.ChainConsecutive` | ingest/ledgerbackend/captive_core_backend.go:627-673 | accepted ledgers are consecutive iff the 32-bit counter does not run out before the last |
| `CaptiveCore.CaptiveHcnetCore.HandleMetaPipeResult` | ingest/ledgerbackend/captive_core_backend.go:627-716 | one result: accepted iff it extends the session; every refusal closes the runner, keeps the bookkeeping and names its cause |
| `CaptiveCore.CaptiveHcnetCore.AwaitLedger` | ingest/ledgerbackend/captive_core_backend.go:613-624 | the loop ends exactly as waiting on the stream does: which ledger or which error, the ledgers accepted, the results taken and whether the runner was closed; nothing past the ledger is taken |
| `CaptiveCore.FetchReaches` | ingest/ledgerbackend/captive_core_backend.go:613-673 | waiting succeeds iff the stream leads to the ledger by linked ledgers in time and the close of a finished session does not fail |
| `CaptiveCore.CaptiveHcnetCore.GetLedger` | ingest/ledgerbackend/captive_core_backend.go:572-625 | a success is the ledger asked for; the session grows by nothing past it or past a bounded range; the outcome is exact in every case: cached, refused, closed runner, streamed, and a nil meta pipe iff the request is neither cached nor refused and the last runner never started |
| `CaptiveCore.CaptiveHcnetCore.StartRunner` | ingest/ledgerbackend/captive_core_backend.go:287-354 | a successful start begins a new session; a failed one replaces the runner and keeps the old bookkeeping |
| `CaptiveCore.CaptiveHcnetCore.StartPreparingRange` | ingest/ledgerbackend/captive_core_backend.go:443-474 | nothing changes for a prepared range; otherwise exactly when a new session begins, and which error comes first |
| `CaptiveCore.CaptiveHcnetCore.PrepareRange` | ingest/ledgerbackend/captive_core_backend.go:486-503 | a range that had to be opened ends with its first ledger at hand, and counts as prepared from then on unless its last ledger was taken; a range that starts at the last sequence number is never opened successfully, because the loop counter wraps |
| `CaptiveCore.CaptiveHcnetCore.Close` | ingest/ledgerbackend/captive_core_backend.go:755-774 | closing cancels the runner; a closed backend refuses every ledger that is not cached and prepares nothing |
| `CaptiveCore.CaptiveHcnetCore.SessionSafety` | ingest/ledgerbackend/captive_core_backend.go:287-685 | at every point of every run the accepted ledgers are the first results of the pipe, hash-linked; in a bounded session consecutive from the ledger that starts the checkpoint run of the first one asked for, and within the range |
| `CaptiveCore.CaptiveHcnetCore.RefusesOutside` | ingest/ledgerbackend/captive_core_backend.go:572-611 | a session under way refuses a ledger as behind iff it is not past the last one taken, as past the range iff it is beyond the end, and otherwise not at all |
| `CaptiveCore.CaptiveHcnetCore.PreparedExactly` | ingest/ledgerbackend/captive_core_backend.go:513-553 | a session under way is prepared for a range iff it is alive, the range starts no earlier than the last ledger taken and ends within the session |
| `CaptiveCore.CaptiveHcnetCore.PreparedIsReadable` | ingest/ledgerbackend/captive_core_backend.go:513-611 | a range reported as prepared is readable from its start unless the last runner never started, the start lies past the end of the session, or ledger 0 is asked for while nothing is cached; for a non-empty range from ledger 1 on, iff it is cached or the runner started and the session does not end at ledger 0 |
| `CaptiveCore.CounterRunsOut` | ingest/ledgerbackend/captive_core_backend.go:635-669 | a run, for any hashes, in which a session passes the last sequence number and accepts an earlier ledger again |
| `CaptiveCore.EndsAtLedgerZero` | ingest/ledgerbackend/captive_core_backend.go:513-542 | a run in which a session that ends at ledger 0 reports another range as prepared and refuses its start |
| `CaptiveCore.NothingCachedIsLedgerZero` | ingest/ledgerbackend/captive_core_backend.go:529-542 | a run in which nothing is cached, ledger 0 is reported as prepared, and reading it is refused |
| `CaptiveCore.FailedRestart` | ingest/ledgerbackend/captive_core_backend.go:329-340 | a run in which a runner fails to start, the old range still counts as prepared, and reading it hits the nil meta pipe |
| `Base32.DecodeEncode` | strkey/main.go:161-165 | decoding undoes unpadded base32 encoding |
| `Base32.EncodeDecode` | strkey/main.go:217-255 | encoding undoes decoding of text with no spare character and zero spare bits |
| `Base32.PadsDecode` | strkey/main.go:249-254 | bytes 0xff that fill up the last group, and a few bytes of any kind after them, do not change what is decoded |
| `Base32.FirstLetter` | strkey/main.go:21-43 | the first character stands for the upper five bits of the first byte |
| `StrKey.Encode` | strkey/main.go:137-168 | fills version, payload and little-endian checksum into the raw array and prints it; fails iff the version is unknown or the payload exceeds 100 bytes |
| `StrKey.KindLetter` | strkey/main.go:21-43 | each kind of key is printed with its own first letter: G, S, M, T, X, P or C |
| `StrKey.InitDecodingTable` | strkey/main.go:203-212 | the table holds the value of every alphabet character and 255 elsewhere |
| `StrKey.EncodedIsCanonical` | strkey/main.go:217-255 | everything the encoder prints passes the canonical-form checks |
| `StrKey.DecodeAfterEncode` | strkey/main.go:62-168 | every key that encodes decodes to its payload, with and without the version given |
| `StrKey.DecodedIsPrinted` | strkey/main.go:217-255 | text over the alphabet that decodes is what the encoder prints, and holds at least three bytes |
| `StrKey.EncodeAfterDecode` | strkey/main.go:91-168 | a text that decodes to a payload of legal size is the one the encoder prints iff it holds only characters of the alphabet |
| `StrKey.EncodeInjective` | strkey/main.go:137-168 | different versions or payloads never print the same |
| `StrKey.DecodeAnyPanics` | strkey/main.go:62-86 | an index is out of range iff the text decodes and, line breaks aside, starts with fewer than five alphabet characters or with exactly six; never on text over the alphabet |
| `StrKey.PadsPanic` | strkey/main.go:62-86 | UURL followed by four bytes 0xff is such a text, without any line break |
| `StrKey.LineBreaksPanic` | strkey/main.go:62-86 | eight line breaks are such a text |
| `StrKey.LineBreaksIgnored` | strkey/main.go:249-254 | for every key that fills its bytes, eight appended line breaks decode to the same payload |
| `StrKey.PadsIgnored` | strkey/main.go:249-254 | every printed key that does not fill its last group of eight characters decodes to the same payload when bytes 0xff fill it |
| `StrKey.WholeQuantaDecode` | strkey/main.go:230-254 | a text whose length is a multiple of eight skips the leftover checks and decodes as base32 does |
| `Checkpoints.NextCheckpointIsLeast` | historyarchive/range.go:54-63 | the least aligned number at or after the ledger, cut off at the last sequence number |
| `Checkpoints.PrevCheckpointIsGreatest` | historyarchive/range.go:45-51 | the greatest aligned number at or before the ledger, with the first checkpoint and the last sequence number as exceptions |
| `Checkpoints.MakeRangeCovers` | historyarchive/range.go:84-96 | every range made runs upwards between checkpoints and covers what was asked for |
| `Checkpoints.ClampCovers` | historyarchive/range.go:92-96 | a clamped range has checkpoints at both ends and covers everything from the first checkpoint length on that the two ranges share |
| `Checkpoints.GenerateCheckpoints` | historyarchive/range.go:102-111 | yields, in increasing order, exactly the numbers of the range a whole number of steps above its low end |
| `Checkpoints.StepsAligned` | historyarchive/range.go:102-111 | above an aligned low end these are exactly the aligned numbers |
| `ArchivePaths.PathPrefix` | historyarchive/dirprefix.go:18-27 | the first n + 1 components, since the loop stops only after passing index n |
| `ArchivePaths.RangePaths` | historyarchive/dirprefix.go:43-62 | the directories from the low to the high prefix at the depth where they part |
| `ArchivePaths.DirectoryOf` | historyarchive/dirprefix.go:43-62 | every number of the range lies under one of these directories |
| `ArchivePaths.UnderPartialPrefix` | historyarchive/util.go:75-79 | a canonical path lies under each of its directory prefixes |
| `ArchivePaths.NumberOfCanonicalPath` | historyarchive/archive.go:347-371 | the listing pattern reads the number back from a canonical path |
| `ArchivePaths.HexRoundTrip` | historyarchive/archive.go:357-362 | parsing undoes printing of hexadecimal numbers |
| `ArchiveScan.CanonicalFileListed` | historyarchive/scan.go:105-150 | the listing scan overlooks no file at its canonical path |
| `ArchiveScan.ScansSeeTheSame` | historyarchive/scan.go:43-167 | on canonical archives the two scans see the same checkpoints of the range |
| `ArchiveScan.Archive.ClearCachedInfo` | historyarchive/scan.go:315-323 | no checkpoint is noted any more |
| `ArchiveScan.Archive.NoteCheckpointFile` | historyarchive/scan.go:343-347 | one note changes, in one category |
| `ArchiveScan.Archive.ScanCheckpointsSlow` | historyarchive/scan.go:43-103 | in whatever order requests are taken, the notes say which canonical files exist, and skipped categories keep theirs |
| `ArchiveScan.Archive.ScanCheckpointsFast` | historyarchive/scan.go:105-167 | in whatever order files are noted, exactly the listed numbers of the range are added |
| `ArchiveScan.Archive.ListCategoryCheckpoints` | historyarchive/archive.go:347-371 | the numbers of the listed files that match the pattern |
| `ArchiveScan.Archive.CheckCheckpointFilesMissing` | historyarchive/scan.go:366-380 | per category, in order, the checkpoints of the range without a presence note |
| `ArchiveScan.ReportMissingBothWays` | historyarchive/scan.go:43-167 | from a cleared archive with canonical paths, both scans lead to the same report, which lists exactly the checkpoints without a file (all of them for a skipped category) |

## Left out

- Storage backends, gzip, caches, process spawning, HTTP and metrics: outside effects. Their results are parameters (the meta pipe, the archive root, directory listings, whether a close or a start fails).
- Locks, goroutines and contexts: each locked method is one step, cancellation is an arbitrary choice, and scans note files in any order.
- ContinuedFraction.Parse: starts from the rational number; the check of the text's form and its decoding are not modelled.
- The rounding-slippage branches of the pool functions: reporting only.
- Sorting and filtering the found paths, and global optimality of the search, which the code does not promise.
- PathFinding.FindPaths: amounts are taken as non-negative int64 values, which its callers check; the found paths are not sorted and filtered; completeness in terms of the book is stated for assets within two trades.
- PathFinding.FindFixedPaths: as FindPaths.
- PathSearch.RunSearch: completeness beyond two trades is relative to what was held at the start of each round, since the code keeps one path an asset.
- Slices in edge sets and graph tables are values: sharing of backing arrays, which `reallocate` is about, is not captured. The path nodes of the search are heap objects.
- The batch is a part of the graph object rather than an object of its own.
- Asset strings: an asset is identified by type, code and issuer.
- GraphVerification.Verify: what a failed check would report is a single failure value, a key out of range (on which the source panics) is excluded, and the ignored result of the pool comparison is not modelled.
- BucketStream.CheckpointChangeReader.StreamBuckets: what a hash decodes to and what the archive knows of it are given; sizes are not summed up, retries of failed reads are not modelled, and a faulty bucket yields one read error.
- LedgerKeys.CompressIdentifies: contract values are their XDR bytes, taken to be prefix-free by their fixed position between address and durability.
- LedgerChangeReader.LedgerChangeReader.Read: hashing and matching of transactions with their results happens before; the reader is given the transactions.
- StrKey.EncodeAfterDecode: the CRC-16 is a parameter, any function from bytes to 16-bit numbers; strings are byte strings, one character below 256 a byte.
- StrKey.DecodeAfterEncode: the base32 coder of the standard library is modelled from section 6 of RFC 4648, with the decoder's dropping of line breaks and its taking the byte 0xff for padding.
- CaptiveCore.CaptiveHcnetCore.GetLedger: waiting for a pipe that yields nothing more ends with the caller's context; the error texts are reduced to their kind.
- CaptiveCore.CaptiveHcnetCore.StartPreparingRange: which ledger and hash an online run is started from is RunFromParams; what the runner does with them is not modelled.
- ArchiveScan.Archive.ScanCheckpointsSlow and its fast counterpart: file verification, progress ticks and error counts are not modelled; lookup errors, on which the source panics, do not occur.
- ArchiveScan.ReportMissingBothWays: is stated for archives whose numbered files sit at their canonical paths; a misplaced file is seen by the listing scan only.
- Bucket scanning, mirroring and repair of archives; the historyarchive ledger reader; `fmtRangeList`.
- `Price.Normalize`, `Price.Invert`, accessors, string forms and the transaction builder: field copying.
