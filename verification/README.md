# Verified models of the index press and its operator scripts

Dafny models of the parts of the repository whose guarantees need more than
reading one function: the drawing rasteriser and its PNG writer, the sizing of
collateral and of two trading agents against the futures venue, the two-oracle
posting protocol, the robust price aggregate, the diagram router and its tables,
the archive-before-redeploy protocol, the constructed wash attack, the settlement
rule and the device grant.

`dafny verify dfyconfig.toml` checks everything. Each file holds the module or
modules of one component.

| files | component |
|---|---|
| LinePath, Canvas, Preview, Png | `scripts/preview_excalidraw.py`: a pure digital line and painter semantics, a canvas class over one byte array proved against them, and a PNG container with a strict reader (RFC 2083) |
| Desk, Collateral, TakerLoop, Hedger | margin arithmetic, the collateral search, and the two agents trading on a venue whose maker mirrors every fill |
| OracleSync, OracleProtocol, OracleScripts | append-only oracles, the backfill plan, a transition system of backfill and live cycle interleaved post by post, and the two scripts as methods |
| Anchors | sorted, trimmed aggregation and the ratchet |
| Router, Scene | right-angle routing and the generator's mutable tables |
| Archive | the decision archiver, the redeploy protocol around it, and the receipt archiver |
| Injection | rings of trading identities |
| Settlement, DeviceGrant | first-print settlement with its escape hatch; device grant issuer and client (RFC 8628) |
| Rounding, Sorting, Decimal | shared arithmetic, a sort with its uniqueness, decimal numerals |

Code that updates state in place is a class or a method with loops, proved equal
to a function of its input; the properties are lemmas about that function. Prices
and quantities are real numbers with the source's rounding (`round`, ties to even,
and `int`, toward zero) written out. Reads of the chain, of production and of the
clock, the outcome of every post and payment, and random draws are parameters, so
each theorem holds for all of them, failures included.

## Where the code differs from what it says

The models follow the code. Each difference has an exact condition or a concrete
case in the table below.

- `scripts/futures_collateralize.py:237` rounds the need to the cent, so a top-up
  that no ceiling cuts can stop short of the collateral it aims at
  (`NeedReachesWant`, `FullTopUpCanStopShort`).
- `scripts/hedger.py:256` can pass the allowance by up to 0.009
  (`TopUpAgainstAllowance`).
- `scripts/hedger.py:576-595` says it takes what room the book has, but goes on to
  the top-up and refuses the order when that is nothing (`BookBoundOrderNeedsTopUp`).
- `scripts/hedger.py:379` books 0.0001 when a payment answer names no amount, and
  `scripts/hedger.py:367-373` books nothing when a payment was made but its answer
  did not arrive, so the spend cap can be passed (`UnreportedPaymentsPassTheCap`);
  `UnnamedCapIff` and `UnansweredCapIff` say for which cap, price and number of
  ticks it cannot.
- `scripts/hedger.py:473` takes a failed position read for a flat position, while
  the lines after it refuse to do so for collateral; such a tick can pass the
  position cap or move away from the target (`BlindTickKeepsCapIff`,
  `BlindTickKeepsTargetIff`). With a position of 2.5 and the default
  mandate of 2.5 under a cap of 3.0 it can order up to 2.0 more.
- `scripts/backfill_oracle_v2.py:100-101` takes a failed read of v2 for an empty
  index; prints v2 already holds are then planned and refused, which costs posts
  but never moves v2 (`WhoIsRefused`, `Backfill`).
- `scripts/backfill_oracle_v2.py:174-182` counts a post that was silently skipped as
  posted, and one that landed but timed out as failed: exit code 0 can mean that
  nothing was added, and 1 that something was (`ExitCodeMeans`).
- `scripts/futures_loop.py:240-262` counts a trade that was never sent, and retries
  one that landed but timed out, so under `--once` several fills can land
  (`CountIsFillsIff`).
- `scripts/futures_settle.py:70-77` takes an unreadable list of series for an empty
  venue and exits with 0; lines 89 and 92 ignore a call that was never sent
  (`SettleAll`, `ExitZeroMeansDoneIff`). Inside the grace an unreadable print makes
  it wait although `settle` is open (`ChoiceMatchesVenue`). An unreadable grace
  makes it follow the rule of an older venue, whose call can revert and end the
  pass (`UnreadGraceRevertsIff`).
- `scripts/anchors.py:333` checks nothing when the rows no longer measure
  (`EmptiedRowsPass`).
- A backfill and a live cycle that overlap can have a post refused, on either side
  (`MirrorCanBeRefused`, `BackfillCanBeRefused`); `WhoIsRefused` says exactly when.
- `services/index_api/index_api/poster.py:94-140`: a v1 post that does nothing
  without raising is still mirrored, so live posting, unlike a backfill, can put
  v2 ahead of v1 (`LiveLeadsIff`); the next cycle is unharmed (`NoStall`).
- `scripts/post_once.py:54-62` takes a failed read for an empty oracle; that is
  safe only within one clock step (`BlindCycleIsSafeIff`).
- `scripts/anchors.py:232` rounds small ceilings below the ratio they are made
  from (`FreshCeilingFailsIff`).
- `scripts/gen_architecture.py:138-150` promises axis-aligned segments; off a grid
  its tolerance lets a leg lean by a full unit and the end be missed by half a one
  (`RouteFacts`, `ElbowedIsExactIff`, `EndIsMissedIff`).
- `scripts/archive_decisions.py:233-236` updates its set of seen keys after
  filtering a page, so two rows of one key on one page are both stored
  (`NoKeyTwiceIff`).
- `deploy/redeploy-render.sh:48-64`: a redeploy cleared by the check destroys a
  decision that is outside the 365-day window, of an unlisted business or unreadable
  where it lies, made after the check, or different from an archived one of the
  same key, unless it is archived itself, and nothing else (`RedeployKeepsIff`, `NoDecisionIsLost`). A
  press that shows no operator clears a redeploy too (`AbsentOperatorClears`).
- `contracts/src/ACRFutures.sol:308-323`: while nothing has been posted since
  expiry, the stale settlement's price still depends on when the call is made
  (`StalePriceIsFixedIff`).
- `scripts/fake_agent_pass.py:230` issues its default class even when that is not
  advertised (`TokenClassIsAdvertisedIff`).
- `scripts/preview_excalidraw.py:168-180` writes files with sizes that PNG
  forbids, such as a width of zero (`RoundTrip`).

## Model

| member | source | states |
|---|---|---|
| LinePath.OffsetStep | scripts/preview_excalidraw.py:160-166 | The two conditional moves of the line loop, both judged on the old error, lead from one exactly rounded point of the ideal line to the next. |
| LinePath.AdvanceStaysOnCourse | scripts/preview_excalidraw.py:156-166 | One turn of the loop body keeps position and error term on the ideal path. |
| LinePath.TurnsFollowPath | scripts/preview_excalidraw.py:150-166 | For all integer endpoints, after any number of turns up to the length the loop is at that point of the ideal path (the exact height, rounded half up) and its error term has the matching closed form. |
| LinePath.TrailIsPath | scripts/preview_excalidraw.py:155-166 | What the loop draws, in order, is the ideal path. |
| LinePath.ExitTest | scripts/preview_excalidraw.py:158-159 | The exit test succeeds at turn max(dx, dy) and at no earlier turn: the loop terminates, exactly at the endpoint. |
| LinePath.PathArrivesOnce | scripts/preview_excalidraw.py:150-166 | The path meets its endpoint at its last point only. |
| LinePath.KingMove | scripts/preview_excalidraw.py:160-166 | Consecutive points are one king-move apart and differ. |
| LinePath.PointsDistinct | scripts/preview_excalidraw.py:150-166 | No point is visited twice. |
| LinePath.HalfPixel | scripts/preview_excalidraw.py:150-166 | Every point with i steps across and j down satisfies 2 times the absolute value of i*dy - j*dx at most max(dx, dy): half a pixel of accuracy. |
| LinePath.PathInBox | scripts/preview_excalidraw.py:150-166 | The path never leaves the box its two ends span. |
| Rounding.TruncDropsFraction | scripts/preview_excalidraw.py:125 | int drops the fraction, toward zero on either side. |
| Rounding.HalvesRoundToEven | scripts/hedger.py:256 | round takes a half to its even neighbour, down or up. |
| Rounding.CentsAreWhole | scripts/hedger.py:256 | round to two places yields a whole number of hundredths and keeps one. |
| Painter.CoverageOnGrid | scripts/preview_excalidraw.py:130-148 | At whole coordinates a span is its two ends and all between, and a band its t rows. |
| Painter.LastStrokeWins | scripts/preview_excalidraw.py:119-166 | The meaning of a sequence of drawing calls: the last call whose ideal pixel set contains a pixel decides its colour. |
| Painter.UntouchedIsBackground | scripts/preview_excalidraw.py:119-166 | A pixel no call covers keeps the background. |
| Raster.StartInBounds | scripts/preview_excalidraw.py:127 | Every pixel inside the canvas has its three bytes inside the buffer. |
| Raster.StartInjective | scripts/preview_excalidraw.py:127 | Different pixels never share a byte. |
| Raster.Canvas.constructor | scripts/preview_excalidraw.py:120-122 | A new canvas shows the background everywhere. |
| Raster.Canvas.Px | scripts/preview_excalidraw.py:124-128 | Sets exactly the pixel named, clips silently outside, and changes no other pixel. |
| Raster.Canvas.HLine | scripts/preview_excalidraw.py:130-133 | Covers exactly the pixels between the truncated ends on each of the t rows, everything else unchanged. |
| Raster.Canvas.VLine | scripts/preview_excalidraw.py:135-138 | The same for columns. |
| Raster.Canvas.Rect | scripts/preview_excalidraw.py:140-144 | Covers exactly its four bands, the lower and right ones inset by one. |
| Raster.Canvas.Fill | scripts/preview_excalidraw.py:146-148 | Covers exactly the truncated rows between y and y + h. |
| Raster.Canvas.Trace | scripts/preview_excalidraw.py:150-166 | The in-place loop on the byte array: terminates, visits the trail in order, colours each visited pixel and its right neighbour and nothing else. |
| Raster.Canvas.Line | scripts/preview_excalidraw.py:150-166 | The in-place line colours exactly the ideal path and its second weight pixel; the points visited are max(dx, dy) + 1 points of that path in order. |
| Raster.Canvas.DrawAll | scripts/preview_excalidraw.py:119-166 | After any sequence of calls every in-canvas pixel shows what the painter semantics gives. |
| Preview.Bounds | scripts/preview_excalidraw.py:51-61 | The smallest box around all corners and arrow points, each side touched; raises exactly when there are none. |
| Preview.ElementBox | scripts/preview_excalidraw.py:31-36 | A panel's box by its two corners, an arrow's by the hull of its points; raises for an arrow without points. |
| Preview.HullInsideIffPointsInside | scripts/preview_excalidraw.py:31-48 | A hull lies inside an area exactly when all its points do, so the crop's box comparison decides point by point. |
| Preview.CropElements | scripts/preview_excalidraw.py:39-48 | Keeps, in order, exactly the elements inside the widened rectangle; raises exactly when some arrow has no points. |
| Preview.KeptIff | scripts/preview_excalidraw.py:39-48 | An element survives a crop exactly when every corner of it lies within the tolerance of the rectangle. |
| Preview.KeptInOrder | scripts/preview_excalidraw.py:41-48 | A crop keeps the order of the document. |
| Preview.ShapeIs | scripts/preview_excalidraw.py:187-204 | Where each element lands: its coordinates from the low corner of the box, past 40 units of margin, everything scaled. |
| Preview.DrawCards | scripts/preview_excalidraw.py:194-199 | Zones and cards are painted in document order. |
| Preview.DrawWires | scripts/preview_excalidraw.py:200-206 | Arrow legs are painted afterwards, on top, in order. |
| Preview.Render | scripts/preview_excalidraw.py:183-207 | The whole raster picture equals the painter's picture of the placed elements, on a canvas of the box and its margin. |
| Preview.PictureShows | scripts/preview_excalidraw.py:194-206 | What each pixel shows: on an arrow's digital line, the colour of the last arrow there, whatever the rectangles; else on a two-pixel outline, or on the five-row title strip of a card that is not dashed, the colour of the last such rectangle; else white. |
| Preview.ArrowsNeverClipped | scripts/preview_excalidraw.py:51-61 | With a margin of at least two pixels no pixel of any arrow in the document is clipped, its second weight pixel included. |
| Preview.OutlinesNeverClipped | scripts/preview_excalidraw.py:51-61 | Nor is any pixel of a rectangle's outline. |
| Crc.CrcOfEndChunk | scripts/preview_excalidraw.py:174-176 | The CRC-32 defined here, bit by bit, gives the known CRC of a bare IEND chunk. |
| Png.Write | scripts/preview_excalidraw.py:168-180 | The row loop produces the file of exactly this canvas, or raises when a size does not fit its four-byte field. |
| Png.PackUnpack | scripts/preview_excalidraw.py:175-178 | Four-byte big-endian integers read back. |
| Png.ReadWriteChunk | scripts/preview_excalidraw.py:174-176 | A written chunk, followed by anything, reads back with its length and CRC checked, exactly when its length is legal in PNG. |
| Png.UnfilterRaw | scripts/preview_excalidraw.py:169-172 | Removing one zero filter byte per row gives back the buffer. |
| Png.FileChunks | scripts/preview_excalidraw.py:178-180 | The file is the signature and exactly the chunks IHDR, IDAT, IEND. |
| Png.FileLayout | scripts/preview_excalidraw.py:178-180 | Every file, byte by byte: the signature, the header chunk with both sizes and the bytes 8 2 0 0 0, one data chunk, and the twelve bytes of an empty end chunk, each check value that of its tag and data. |
| Png.RawOneMore | scripts/preview_excalidraw.py:169-172 | The raw data is, row by row, a zero byte and the row of the buffer. |
| Png.RoundTrip | scripts/preview_excalidraw.py:168-180 | For every canvas, reading the file gives back width, height and buffer if both dimensions are in 1..2^31-1 and the IDAT length is legal (section 2.1 of RFC 2083), and is refused otherwise; the writer does not enforce this. |
| Desk.ClampRange | services/index_api/index_api/desk.py:633-634 | A quote lies within [0, MAX_QTY] and overstates positive room by half a cent at most. |
| Desk.ClampMonotone | services/index_api/index_api/desk.py:633-634 | More raw room never quotes less. |
| Desk.ClampIsNearest | services/index_api/index_api/desk.py:633-634 | Inside the range a quote is the nearest cent; it stops at 0 and 2. |
| Desk.CapIs | services/index_api/index_api/desk.py:629-630 | Exposure is within a cap exactly when it costs at most nine tenths of the collateral to margin. |
| Desk.BuyQuoteIsLargest | services/index_api/index_api/desk.py:626-634 | The quoted buy is, to the nearest cent and up to two contracts, the largest that leaves taker and mirrored maker within their caps; a contract that costs nothing has no quote. |
| Desk.SellQuoteIsLargest | services/index_api/index_api/desk.py:626-634 | So is the quoted sell, on the other side of both. |
| Desk.CapReaches | services/index_api/index_api/desk.py:629-630 | Collateral worth a number of contracts raises the cap to that number. |
| Collateral.ThinMonotone | scripts/futures_collateralize.py:96-105 | More collateral on both sides never lowers the thin side's quote: the premise that makes the search valid. |
| Collateral.TargetAboveMaximum | scripts/futures_collateralize.py:128-131 | No collateral makes the book quote more than MAX_QTY, so a larger target is never reached. |
| Collateral.ThinIs | scripts/futures_collateralize.py:96-105 | With equal collateral on both sides the thin side is the clamped cap less the inventory, either way. |
| Collateral.TargetNeedsCap | scripts/futures_collateralize.py:124-136 | A target in range is cleared exactly when the cap covers it and the inventory, half a cent of rounding aside. |
| Collateral.RequiredCollateral | scripts/futures_collateralize.py:124-146 | Infinite exactly when the largest probe, 2^39, falls short; otherwise the answer clears the target and exceeds every sufficient non-negative collateral by at most 0.01 plus the last bracket of 2^-22. |
| Collateral.DepthReached | scripts/futures_collateralize.py:108-121 | Collateral at or above the depth formula absorbs the wanted number of reader trades. |
| Collateral.DepthFormulaIsTight | scripts/futures_collateralize.py:108-121 | The depth formula asks for at most a cent more than any collateral that absorbs the wanted number of trades. |
| Collateral.DepthIs | scripts/futures_collateralize.py:214-215 | Depth counts the reader-sized trades that fit between inventory and cap. |
| Collateral.ReaderTradeIsQuoted | scripts/futures_collateralize.py:90-93 | A reader's trade is, to the cent, what the desk quotes someone flat with half a USDC when the maker does not bind. |
| Collateral.CappedIsLargest | scripts/futures_collateralize.py:239-240 | The amount posted is the largest within the need, the run's ceiling and the wallet's spare cents. |
| Collateral.PlanTopUp | scripts/futures_collateralize.py:198-254 | The wanted collateral, and any above it, meets headroom and depth together, and exceeds every collateral that does by at most a cent and the search's last bracket. Nothing is posted exactly when the book is at target, the target is out of reach even at the largest probe, or less than a cent is needed or allowed; otherwise the amount is the need cut by both limits and leaves the wallet at its floor minus 0.005 or above. |
| Collateral.NeedReachesWant | scripts/futures_collateralize.py:237 | Posting the whole need reaches the wanted collateral exactly when the sub-cent part already posted is below half a cent, or is half a cent and the number of missing whole cents is even. |
| Collateral.FullTopUpCanStopShort | scripts/futures_collateralize.py:237 | A concrete book where an uncapped top-up leaves the depth below its goal. |
| Venue.FillConservesNet | contracts/src/ACRFutures.sol:266-268 | A fill mirrored onto the maker leaves the net position over all traders unchanged. |
| Desk.RequirementAtMost | contracts/src/ACRFutures.sol:416-423 | The venue's margin requirement, both divisions rounded down, never exceeds the unrounded one. |
| Desk.RequirementAtLeast | contracts/src/ACRFutures.sol:416-423 | ... and falls short of it by less than two millionths of a USDC. |
| Venue.Book.Trade | contracts/src/ACRFutures.sol:252-273 | A fill is accepted exactly when the venue is open, the fill is non-zero and taker and maker both cover the rounded requirement afterwards; the maker takes the mirror, and a revert changes nothing. |
| TakerLoop.ChooseQty | scripts/futures_loop.py:71-89 | Never zero; stays inside a band of at least one when it was inside, moves strictly closer to flat when it was outside, keeps the draw whenever that fits, and else goes to the last whole contract inside the band or one step back. |
| TakerLoop.FitIsLargest | scripts/futures_loop.py:234 | The clamped size is the largest whole number of contracts, up to the one chosen, that there is room for. |
| TakerLoop.WidthIsWidest | scripts/futures_loop.py:230 | The band of a step is the widest, up to the loop's own and at least one, whose two edges are both within reach. |
| TakerLoop.ProposalIsZeroIff | scripts/futures_loop.py:227-239 | Nothing is asked for exactly when the chosen direction has less than one contract of room. |
| TakerLoop.FitWithinRoom | scripts/futures_loop.py:234 | The clamped size is between zero and the proposal, or zero, and grows neither side past taker's or mirrored maker's cap, half a cent of quote rounding aside. |
| TakerLoop.GrowingFillIsAccepted | scripts/futures_loop.py:220-234 | A fill within those caps never trips the venue's margin check on a party whose exposure it grows. |
| TakerLoop.Propose | scripts/futures_loop.py:227-234 | From one set of reads, the size respects both caps and never takes the inventory outside the band or further out than it was. |
| TakerLoop.TakeTurn | scripts/futures_loop.py:217-243 | One guarded turn conserves the net position, keeps the taker's inventory bound, moves the inventory by exactly what landed, and counts a trade exactly when its call returned. |
| TakerLoop.Run | scripts/futures_loop.py:202-268 | Over every run, with failing reads, calls that time out after landing or are never sent, marks that move even between read and fill, and other takers trading between turns: the loop takes its ticks one by one until it must stop and no further, each turn being what its tick makes of it; net position conserved, every trade asked for within both caps as read, own inventory never beyond the band or its start and moved by exactly what landed, calls counted at most as many as allowed and one under once. |
| TakerLoop.FailuresStop | scripts/futures_loop.py:249-260 | Thirty failures in a row end the loop, or as many as once allows, and fewer do not. |
| TakerLoop.CountIsFillsIff | scripts/futures_loop.py:240-262 | The loop's count equals the number of fills exactly when as many trades were never sent as landed without the call returning. |
| Hedger.MarginBoundIffMarginHelps | scripts/hedger.py:211-235 | The test is true exactly when more margin of one's own makes more room. |
| Hedger.RawRoomIsDesks | scripts/hedger.py:216-217 | The room in question is the desk's own, before clamping, on the side of the order. |
| Hedger.NeedIsExact | scripts/hedger.py:250-251 | The collateral needed is the least whose cap covers the whole order. |
| Hedger.TopUpIsTight | scripts/hedger.py:252-256 | The amount is at most 0.019 more than what is short, and passes neither ceiling by more than 0.009. |
| Hedger.TopUpCoversOrder | scripts/hedger.py:238-256 | When neither ceiling binds, the top-up brings the agent's own term up to the whole order. |
| Hedger.RemainingShortfallIsTheBooks | scripts/hedger.py:211-256 | So any quote still short of the order afterwards is short because of the maker's term. |
| Hedger.TopUpAgainstAllowance | scripts/hedger.py:255-256 | The amount never passes the allowance by more than 0.009, and passes it exactly when the unrounded amount exceeds the allowance's whole cents by more than a tenth of a cent (ties to even). |
| Hedger.TopUpIsNothing | scripts/hedger.py:248-256 | Nothing is added exactly when nothing is short or at most a tenth of a cent is allowed. |
| Hedger.BookBoundOrderNeedsTopUp | scripts/hedger.py:576-595 | A book-bound order with room left falls through to the top-up and is refused for want of one exactly when the agent's margin already covers it or next to nothing may be added. |
| Hedger.RoomLeftButRefused | scripts/hedger.py:576-595 | A concrete case: the book quotes one contract and the order for two is refused. |
| Hedger.OrderClosesGap | scripts/hedger.py:629 | An order points at the target and overshoots the gap by half a cent at most. |
| Hedger.OrderIsExact | scripts/hedger.py:629 | Its size is the smaller of the gap and the room, to the nearest cent. |
| Hedger.ToppedUpOrderIsExact | scripts/hedger.py:551-629 | An order sent at once has room for the whole gap; one sent after a top-up is, to the nearest cent, the gap or the room that the collateral then shown makes, and follows only a shown increase. |
| Hedger.SizedOrderClosesGap | scripts/hedger.py:551-629 | So does every order that sizing lets through, with or without a top-up. |
| Hedger.DecidedOrderKeepsMandate | scripts/hedger.py:459-654 | One tick that knows its position never increases the distance to the target beyond rounding, stays within the position cap, and trades only beyond the minimum. |
| Hedger.HoldsIff | scripts/hedger.py:482-497 | The agent holds exactly when it can read the mark and its collateral and is within the minimum trade of the target; it never trades for a target outside its cap. |
| Hedger.RoomReachesTarget | scripts/hedger.py:482-650 | Everything read and room for the whole gap: the agent asks for all of it, and the fill leaves it within half a cent of the target. |
| Hedger.FirstPostingIsReread | scripts/hedger.py:503-531 | With nothing posted yet the agent decides by what it reads after posting, and stops when that still shows nothing. |
| Hedger.LedgerWithinCap | scripts/hedger.py:355-379 | Whatever the payment answers say, the total charged passes the spend cap by at most what purchases were booked below their charge, plus half a millionth that whole-millionth amounts do not need. |
| Hedger.HonestAnswersBookAll | scripts/hedger.py:369-379 | Nothing is booked below its charge when every payment made is answered with at least its price. |
| Hedger.UnansweredCapIff | scripts/hedger.py:357-373 | When payments may be charged without a readable answer, the cap holds over every run of up to n ticks at a price exactly when the price is above what the payment layer is first told or n purchases fit under the cap. |
| Hedger.PricesCapIff | scripts/hedger.py:357-373 | The same for any list of positive prices: the cap holds, however each payment ends, exactly when the prices that the payment layer would let through at first fit under it together. |
| Hedger.UnnamedLedger | scripts/hedger.py:355-379 | When answers name no amount, the number of purchases let through is the smaller of the ticks and floor((told cap - price) / 0.0001) + 1. |
| Hedger.UnnamedCapIff | scripts/hedger.py:379 | Then the cap holds over every run of up to n ticks exactly when that many purchases fit under it. |
| Hedger.UnreportedPaymentsPassTheCap | scripts/hedger.py:379 | When the answer names no amount, two purchases exceed the cap. |
| Hedger.Run | scripts/hedger.py:437-654 | Over every run: the agent takes its ticks one by one and goes on until the kill switch, gas below the floor, a refusal or a failed trade command, and no longer; what is booked and charged is the ledger of those purchases, so its bound holds however payments end; if every position read succeeds and only its own fills move it, the position never moves away from the target, stays inside the cap once inside, and is left alone within the minimum trade. |
| Hedger.BlindOrderIsLargest | scripts/hedger.py:473-497 | A tick whose position read failed takes itself for flat; it never orders more than the stated largest order, nor the other way. |
| Hedger.BlindOrderIsSent | scripts/hedger.py:473-629 | That largest order is sent in some tick. |
| Hedger.BlindTickKeepsCapIff | scripts/hedger.py:473-497 | From a position inside the cap, every tick that fails to read it stays inside the cap exactly when the position has room for that largest order. |
| Hedger.BlindTickKeepsTargetIff | scripts/hedger.py:473-497 | From any position, every tick that fails to read it moves no further from the target, rounding aside, exactly when that largest order does not. |
| OracleHistory.Oracle.Post | contracts/src/ACROracle.sol:160-184 | A post is accepted exactly when it arrives and its timestamp is beyond the index's latest; otherwise nothing changes. |
| BackfillPlan.PlanIndex | scripts/backfill_oracle_v2.py:95-134 | The backward walk that stops at the cutoff collects exactly the prints inside the window and beyond v2's floor, ascending. |
| BackfillPlan.SortedPlanAscends | scripts/backfill_oracle_v2.py:146-148 | Sorting by index and timestamp keeps the prints and makes each index strictly ascending. |
| BackfillPlan.BuildPlan | scripts/backfill_oracle_v2.py:81-148 | The plan holds exactly the wanted prints of the indices that could be read, each index ascending, whatever the registry order. |
| BackfillPlan.NothingBeyondV1 | scripts/backfill_oracle_v2.py:150-159 | The guard against putting v2 ahead can never fire on a plan built here. |
| OracleProtocol.StepKeepsInv | scripts/backfill_oracle_v2.py:83-182 | Every step of live cycle or backfill, post by post and with any post lost, keeps both histories monotone, the cycle ahead of both oracles and the backfill's remaining prints sound. |
| OracleProtocol.RunKeepsInv | scripts/post_once.py:39-62 | So it holds in every reachable state of every interleaving. |
| OracleProtocol.WhoIsRefused | services/index_api/index_api/poster.py:94-140 | Over every interleaving: a v1 post is never refused; a mirror post is refused exactly where v2 already holds that very print; a backfill post exactly where a live print has overtaken its index or v2 was past it when planned. |
| OracleProtocol.MirrorFollowsReturn | services/index_api/index_api/poster.py:97-140 | A v1 post is mirrored exactly when its call returned, landed or not; after one that raised, and after every mirror post, the cycle goes on to its next index or ends. |
| OracleProtocol.BackfillStaysBehind | scripts/backfill_oracle_v2.py:150-159 | A backfill post never carries v2 past v1 on any index. |
| OracleProtocol.NothingRefusedInTurns | scripts/backfill_oracle_v2.py:171-178 | When backfills and cycles take turns and v2's floors could be read, no post is ever refused, whatever is lost. |
| OracleProtocol.NoStall | scripts/post_once.py:39-62 | After any run whatever, the next cycle's timestamp is acceptable to both oracles on every index. |
| OracleProtocol.FinishedFillIsLevel | scripts/backfill_oracle_v2.py:83-182 | Over every interleaving, a backfill none of whose posts is lost ends with every index read at or past v1's newest print as it was when the plan was taken, whatever live cycles do in between. |
| OracleProtocol.MirrorCanBeRefused | services/index_api/index_api/poster.py:134-140 | A run in which a backfill copies the print a live cycle is about to mirror, and the mirror post is refused. |
| OracleProtocol.BackfillCanBeRefused | scripts/backfill_oracle_v2.py:171-178 | A run in which the mirror post comes first and the planned copy is refused. |
| OracleProtocol.BlindCycleIsSafeIff | scripts/post_once.py:54-62 | For any two oracles and any set of reads that succeed, both oracles accept the cycle's timestamp on every index exactly when the newest print it saw lies in the same clock step as the newest there is. |
| OracleScripts.PostPlan | scripts/backfill_oracle_v2.py:171-178 | Posting a plan in order adds to every index exactly the timestamps that arrive and were ahead of v2, in order; the script's count is that of the calls that returned, skipped posts included and landed posts that raised left out. |
| OracleScripts.Backfill | scripts/backfill_oracle_v2.py:44-182 | A whole backfill: every index read gains exactly v1's prints inside the window and beyond v2's newest that arrive, in order, and no other index changes, so v2 is never carried past v1 and an index read ends level with v1 when its newest post arrives; nothing is refused if v2 could be read; it exits with 0 exactly on a dry run, when nothing is planned though something was read, or when some call returned. |
| OracleScripts.ExitCodeMeans | scripts/backfill_oracle_v2.py:171-182 | v2 gains a print exactly when a planned one arrives ahead of it; exit code 0 implies that unless some call was skipped, and exit code 1 excludes it unless a print landed and raised. |
| OracleScripts.CopiedIsFilled | scripts/backfill_oracle_v2.py:83-182 | The sorted plan, taken against whatever could be read of v2, leaves the same histories as filtering v1 index by index. |
| OracleScripts.FilledMeansLevel | scripts/backfill_oracle_v2.py:83-182 | An index so filled stays strictly ascending, is never past v1, and is level with v1 when it was read and its newest print arrived. |
| OracleScripts.SkippedForGood | scripts/backfill_oracle_v2.py:4-9 | A print v2 has passed without taking it is in no later history, whatever is posted: the order of the migration is not recoverable. |
| OracleScripts.LevelPlansNothing | scripts/backfill_oracle_v2.py:137-144 | Planning again once level yields an empty plan. |
| OracleScripts.LiveCycle | services/index_api/index_api/poster.py:84-141 | A cycle on its own: each oracle gains exactly the prints that reached it, mirror posts included for skipped v1 posts, and nothing is refused. |
| OracleScripts.LiveLeadsIff | services/index_api/index_api/poster.py:94-140 | From level oracles, a cycle puts v2 ahead on an index exactly when the v1 post was skipped and its mirror arrived, and behind exactly when v1 took the print and v2 did not. |
| Anchors.OrderOfRowsIsIrrelevant | scripts/anchors.py:111-134 | Permuting the rows changes nothing in the result. |
| Anchors.KeptSlice | scripts/anchors.py:122-124 | What trimming keeps: the slice without floor(n * trim) rows at each end, or everything when the trim is off, the basket has two rows or fewer, or nothing would remain. |
| Anchors.MedianIsMiddle | scripts/anchors.py:125 | The median is the middle sorted price, or halfway between the middle two. |
| Anchors.MeanIsAverage | scripts/anchors.py:125 | The mean times the number of kept prices is their sum. |
| Anchors.QuartilesAre | scripts/anchors.py:126-132 | The extremes are the ends of the kept prices; the quartiles stand a quarter and three quarters of the way in, rounded down. |
| Anchors.SummaryIsOrdered | scripts/anchors.py:111-134 | min, p25, median, p75 and max are in order; the mean lies between min and max. |
| Anchors.CoreIsWithin | scripts/anchors.py:119-124 | With c inputs replaced, every sorted value but the c least and c greatest lies in the range of the untouched inputs. |
| Anchors.TrimmedMeanIsRobust | scripts/anchors.py:122-125 | Replacing up to the trimmed number of inputs, by anything, leaves the trimmed mean in the range of the untouched ones. |
| Anchors.MedianIsRobust | scripts/anchors.py:111-134 | Replacing fewer than half leaves the median in the range of the untouched ones, trimmed or not. |
| Anchors.TrimKeepsMedian | scripts/anchors.py:122-125 | Trimming never changes the median. |
| Anchors.MedianBreaksAtHalf | scripts/anchors.py:125 | Half the inputs suffice to push the median past any bound: the breakdown point is exact. |
| Anchors.TrimmedMeanBreaksBeyondTrim | scripts/anchors.py:122-125 | One input more than is trimmed suffices for the trimmed mean. |
| Anchors.CheckGap | scripts/anchors.py:324-339 | The failures of one anchor, in the order reported, as FreshAnchorPassesIff and EditedRowsAreCaughtIff characterise them. |
| Anchors.CheckAnchors | scripts/anchors.py:317-342 | The loop over all indices passes exactly when every index has an anchor without failures. |
| Anchors.PassesGapChecksIff | scripts/anchors.py:324-339 | An anchor passes the gap checks exactly when its reference is today's, a declared ratio agrees with its own rows to a millionth when they measure, and is within its ceiling if it has one. |
| Anchors.FreshAnchorStates | scripts/anchors.py:208-236 | A measured gap is the reference over the aggregate, and its ceiling is 15% above it to the nearest tenth. |
| Anchors.FreshCeilingFailsIff | scripts/anchors.py:231-232 | A fresh ceiling rounds below its own positive ratio exactly on four ranges under 7/23 (and on the ranges stated for a negative one). |
| Anchors.FreshAnchorPassesIff | scripts/anchors.py:208-254 | A freshly assembled anchor, its rows in any order and its reference unchanged, has none of the gap failures exactly when its ratio is not in those ranges. |
| Anchors.EditedRowsPassIff | scripts/anchors.py:324-339 | A fresh anchor whose rows are edited afterwards passes every gap check exactly when it would unedited and the edited rows leave the gap within a millionth or no longer measure. |
| Anchors.EmptiedRowsPass | scripts/anchors.py:332-333 | A basket emptied afterwards passes wherever the full one does. |
| Router.Orthogonalize | scripts/gen_architecture.py:138-150 | The two loops compute the specified elbowed, deduplicated route. |
| Router.ElbowGoesAcrossFirst | scripts/gen_architecture.py:141-145 | A leg off both axes by more than 0.5 turns by going across first; any other gets no elbow. |
| Router.RouteFacts | scripts/gen_architecture.py:138-150 | For any waypoints: the start is exact, the end within 0.5 per coordinate, consecutive points more than 0.5 apart in some coordinate, every leg within 1.0 of an axis. |
| Router.RoutePassesWaypoints | scripts/gen_architecture.py:138-150 | The route passes every waypoint within 0.5, in order. |
| Router.ElbowedIsExactIff | scripts/gen_architecture.py:140-145 | The elbow loop makes every leg exactly axis-aligned exactly when every two consecutive waypoints are aligned or more than 0.5 apart both ways. |
| Router.SpreadRouteIsExact | scripts/gen_architecture.py:138-150 | When no two waypoint coordinates are within 0.5 unless equal, every leg of the final route is exactly aligned, every waypoint is on it and the end is exact. |
| Router.GridRouteIsExact | scripts/gen_architecture.py:138-150 | In particular on an integer grid. |
| Router.EndIsMissedIff | scripts/gen_architecture.py:146-149 | The end is missed exactly when it is within tolerance of, but not at, the last point kept before it. |
| Router.EndCanBeMissed | scripts/gen_architecture.py:146-149 | Such a route exists. |
| Router.LegCanLeanOneUnit | scripts/gen_architecture.py:141-149 | The bound of 1.0 is attained. |
| Connector.PathJoinsBoxes | scripts/gen_architecture.py:153-191 | A connector starts exactly on the exit edge's midpoint, ends within 0.5 of the entry edge's, and keeps every leg within 1.0 of an axis. |
| Connector.StoredIsPath | scripts/gen_architecture.py:190-191 | The stored points are the path's offsets to the nearest hundredth. |
| Connector.FacingSides | scripts/gen_architecture.py:162-172 | Without wishes a connector leaves by the middle of the side facing the other box and enters by the middle of the side facing back, across or down by which centres are further apart. |
| Connector.WishesAreKept | scripts/gen_architecture.py:164-168 | A side or an axis asked for is the one taken, and entry matches the axis of the exit. |
| Connector.CorridorIs | scripts/gen_architecture.py:177-187 | Between sides on one axis the corridor runs along the wished lane or halfway; between sides on two axes it turns once, at the corner. |
| Connector.ViaIsPassed | scripts/gen_architecture.py:174-189 | Corridor points named by the caller are all passed, in order, within half a unit. |
| Connector.AutomaticCorridorIsRightAngled | scripts/gen_architecture.py:177-189 | Without explicit corridor points the router adds no elbow. |
| Scene.GeneratedIdInjective | scripts/gen_architecture.py:38-40 | Generated ids differ whenever prefix or number does, padding included. |
| Scene.FirstIdsAndSeeds | scripts/gen_architecture.py:38-63 | Ids and seeds as they are handed out: four digits at least, seeds and nonces stepping by 7 and 13 from the counter. |
| Scene.FreshGeneratedId | scripts/gen_architecture.py:38-40 | A newly generated id is in no table yet. |
| Scene.UniqueIds | scripts/gen_architecture.py:43-65 | In consistent tables ids, seeds and nonces are pairwise different. |
| Scene.WireKeeps | scripts/gen_architecture.py:194-207 | Connecting two declared boxes keeps the tables consistent and every arrow bound at both ends. |
| Scene.StepKeeps | scripts/gen_architecture.py:43-94 | So does every other drawing call with a new id. |
| Scene.DrawingIsSound | scripts/gen_architecture.py:38-207 | After any sequence of calls with distinct box ids, ids and seeds are unique and every arrow's two ends exist and list it back. |
| Scene.RedeclaringBreaksIff | scripts/gen_architecture.py:64 | Declaring a box id again breaks the binding exactly when some arrow is bound to that box. |
| Scene.Drawing.Base | scripts/gen_architecture.py:43-65 | Registers one element: tables extended, counter advanced, seeds derived from it. |
| Scene.Drawing.Rect | scripts/gen_architecture.py:68-76 | Declares a box. |
| Scene.Drawing.ZoneBox | scripts/gen_architecture.py:91-94 | Declares a box under a generated id. |
| Scene.Drawing.Text | scripts/gen_architecture.py:79-88 | Registers a label under a generated id. |
| Scene.Drawing.Connect | scripts/gen_architecture.py:153-207 | Routes and registers one connector and lists it on both boxes; an undeclared box raises and changes nothing. |
| Scene.Drawing.Validate | scripts/gen_architecture.py:582-593 | Succeeds exactly when every arrow is bound at both ends. |
| Archive.ShortPageIsComplete | services/index_api/index_api/statement.py:166-179 | A page below the cap shows every matching decision and nothing else. |
| Archive.PageIsNewest | services/index_api/index_api/statement.py:166-179 | A page is newest first, never longer than the cap, and leaves a matching decision out only when it is full of decisions at least as new. |
| Archive.PageShowsOnce | services/index_api/index_api/statement.py:167-177 | Identical rows, archived and live, are shown once. |
| Archive.Merge | scripts/archive_decisions.py:219-248 | The loop over businesses stops at the first that does not answer; otherwise it reports whether any page was full and collects exactly the missing rows, keys seen on earlier pages left out. |
| Archive.Run | scripts/archive_decisions.py:181-273 | What is appended and which code is returned for every answer production can give: nothing is written on an unreadable host, a missing page or a full page, and a press without an operator answers 0. |
| Archive.CheckIsCleanIff | scripts/archive_decisions.py:186-261 | A check exits with 0 exactly when there is no operator, or every page was answered, none was full and everything shown is held. |
| Archive.CannotTellIff | scripts/archive_decisions.py:194-248 | The code is 2, checking or not, exactly for a host that did not answer or is no press of ours, a business that did not answer, or a full page; and then nothing is written. |
| Archive.ProductionIsAheadIff | scripts/archive_decisions.py:260-261 | The code is 1 exactly for a check that could read everything and found a row the archive lacks. |
| Archive.AppendedOldestFirst | scripts/archive_decisions.py:233-236 | What one page adds is appended oldest first. |
| Archive.FreshKeys | scripts/archive_decisions.py:219-236 | After a write every row shown is held, and only shown, previously missing decisions were added. |
| Archive.NothingFreshIff | scripts/archive_decisions.py:260-261 | A check answers 0 exactly when every row shown is already held. |
| Archive.CheckAfterWriteIsClean | scripts/archive_decisions.py:181-273 | Writing makes the next check of the same pages clean. |
| Archive.NoKeyTwiceIff | scripts/archive_decisions.py:233-236 | A write stores no key twice exactly when no page shows two missing rows of one key. |
| Archive.DistinctPagesSuffice | scripts/archive_decisions.py:233-236 | Pages with distinct keys of their own suffice, even when they overlap. |
| Archive.DuplicateOnOnePageIsStoredTwice | scripts/archive_decisions.py:233-236 | Two rows of one key on one page are both stored. |
| RedeployProtocol.PassedCheckCovers | scripts/archive_decisions.py:157-164 | A passed check means the key of every live decision it could see is archived. |
| RedeployProtocol.HeldUnlessShadowed | scripts/archive_decisions.py:219-236 | A held key means that very decision is archived, unless a different one has the same key. |
| RedeployProtocol.PassesIff | deploy/redeploy-render.sh:48-64 | A check clears a redeploy exactly when the press shows no operator, or every page asked for was answered, none was full and everything shown is held. |
| RedeployProtocol.ArchiveOnlyGrows | scripts/archive_decisions.py:239-248 | Every step only appends to the archive, and an archiver that does not exit with 0 writes nothing. |
| RedeployProtocol.StepKeepsInv | deploy/redeploy-render.sh:48-64 | While a redeploy is cleared, the key of every live decision made before its check, and visible to it, is archived. |
| RedeployProtocol.RedeployKeepsIff | deploy/redeploy-render.sh:48-64 | A cleared redeploy loses no decision exactly when every live one that its check does not vouch for (made later, on no page asked for, unreadable to production, or sharing its key with another archived one) is archived. |
| RedeployProtocol.CheckThenRedeployKeepsIff | deploy/redeploy-render.sh:48-64 | For a redeploy right after its check, nothing is lost exactly when every live decision is archived already, or is on a page asked for and not mistaken for another. |
| RedeployProtocol.NoDecisionIsLost | deploy/redeploy-render.sh:48-64 | Over every run of deciding, archiving, checking and redeploying, no decision is ever lost exactly when every redeploy finds archived what its check does not vouch for. |
| RedeployProtocol.InvisibleDecisionIsLost | scripts/archive_decisions.py:157-164 | A decision outside the window, of a business not asked for, or that production cannot read back is on no page: the check passes and the redeploy destroys it. |
| RedeployProtocol.ShadowedDecisionIsLost | services/index_api/index_api/statement.py:150-154 | A live decision with the key of a different archived one is destroyed after any check with no full page. |
| RedeployProtocol.AbsentOperatorClears | scripts/archive_decisions.py:188-193 | A press that shows no operator clears a redeploy without any page read, which loses nothing exactly when every live decision is archived. |
| Receipts.Capture | scripts/x402_capture.py:95-117 | Whatever the ledger repeats, no reference is archived twice, every settlement of the real scheme is archived afterwards as its first row shows it, and nothing else is added. |
| Injection.BuildInjection | redteam/optimal_attack.py:33-60 | The nested loops lay out the specified rings, the notionals add up to exactly the amount asked for, and it raises exactly for a zero trade size or a non-positive price or notional. |
| Injection.SumOverPlan | redteam/optimal_attack.py:39-60 | The notional of a whole injection is the sum of its equal parts. |
| Injection.AdversePriceIs | redteam/optimal_attack.py:33 | The attack trades above the honest level exactly when it pushes up, five times the wanted move away from it. |
| Injection.TradeCountIsNearest | redteam/optimal_attack.py:35-39 | The trades per cluster are the nearest to the usual trade size, or the ring size when that is more. |
| Injection.TimesStep | redteam/optimal_attack.py:46 | Times step through the window in 97 equal parts, over and over. |
| Injection.NamesArePrinted | redteam/optimal_attack.py:44-49 | Addresses and event ids as they are printed. |
| Injection.RingTurns | redteam/optimal_attack.py:52-53 | Whoever buys in a trade sells in the next, and the ring closes after as many trades as it has identities. |
| Injection.TradeAt | redteam/optimal_attack.py:43-59 | Every event is some trade of some cluster, numbered by its place. |
| Injection.TradeIsListed | redteam/optimal_attack.py:43-59 | Every trade of every cluster is on the list. |
| Injection.EveryIdentityTrades | redteam/optimal_attack.py:36-53 | Every identity of every cluster sells and buys. |
| Injection.ClustersAreDisjoint | redteam/optimal_attack.py:44-53 | No identity appears in two clusters. |
| Injection.NoSelfDealIff | redteam/optimal_attack.py:52-53 | Nobody trades with itself exactly when a cluster has at least two identities. |
| Injection.NoReciprocalIff | redteam/optimal_attack.py:52-53 | No two events run against each other exactly when a cluster has at least three. |
| Injection.IdsUniqueTimesInside | redteam/optimal_attack.py:46-50 | Event ids never repeat, and times lie in [t0, t1) when t0 < t1. |
| Settlement.FirstIsFirst | contracts/src/ACROracle.sol:230-233 | The settlement print is the first posted at or after expiry. |
| Settlement.FindFirst | contracts/src/ACROracle.sol:234-249 | The binary search finds it in every chronological history. |
| Settlement.CanSettleIff | contracts/src/ACRFutures.sol:288-299 | settle is open exactly when the first print since expiry is positive and came within the age limit of it. |
| Settlement.ChoiceMatchesVenue | scripts/futures_settle.py:85-101 | The script settles exactly when the venue would accept it and its print could be read, else uses the escape hatch exactly when that is open, and waits exactly when the escape hatch is shut and settle would revert or its print could not be read. |
| Settlement.FailedReadClearsAtSamePrint | scripts/futures_settle.py:86-94 | Past the grace a failed read changes the call made, not the print it clears at. |
| Settlement.SettleStaysOpen | scripts/futures_settle.py:85-90 | Once settle is open it stays open, at the same print, whatever is posted later and however late the call. |
| Settlement.TurnSettlesIff | scripts/futures_settle.py:85-113 | A due series is settled in its turn exactly when the script asks for a call the venue takes (by the first-print rule, or by the latest-print rule when the grace could not be read) and the call goes out. |
| Settlement.PriceIsSettlementPrint | contracts/src/ACRFutures.sol:288-323 | A settled series has the price of the first print posted since expiry, or of the last one there is when none was; nothing else of it changes. |
| Settlement.StuckIff | scripts/futures_settle.py:85-111 | A turn leaves a series waiting exactly when it is due and the script sees no open call: inside the grace without a prompt settlement print that it can read, or, the grace unread, without a fresh latest print. |
| Settlement.FineIff | scripts/futures_settle.py:82-126 | A turn ends well exactly when nothing was due, or a call was asked for and returned, settled or never sent, and the report could be made; everything else that does not wait ends the pass. |
| Settlement.UnreadGraceRevertsIff | scripts/futures_settle.py:102-112 | When the grace could not be read, the call reverts and ends the pass exactly when the latest print is fresh though settle is not open. |
| Settlement.NothingLockedAfterGrace | scripts/futures_settle.py:85-101 | From expiry plus grace on, with positive prints, the venue accepts one of the two calls, and every call that goes out settles the series at a print of its own history, whether that print could be read or not. |
| Settlement.PassClearsIff | scripts/futures_settle.py:70-126 | Nothing is due after a pass exactly when every due series was listed, asked for and reached, the script asked rightly there and its call went out. |
| Settlement.ExitZeroMeansDoneIff | scripts/futures_settle.py:70-126 | When the code is 0, nothing is due exactly when every due series was listed and asked for and its call sent. |
| Settlement.StalePriceIsFixedIff | contracts/src/ACRFutures.sol:308-323 | The escape hatch's print is independent of when the call is made exactly when some print was posted since expiry. |
| Settlement.SettleAll | scripts/futures_settle.py:70-126 | One pass, under any failure of its reads and calls: each series it gets to is settled by its own rule, no other changes, an exception ends it, and it exits 0 exactly when the list could not be read or no due series asked for was left waiting and nothing raised. |
| Issuer.PollNumber | scripts/fake_agent_pass.py:214-232 | A code answers exactly its number of pending replies, then the same terminal reply for ever. |
| Issuer.TokenTerms | scripts/fake_agent_pass.py:217-245 | A token is issued exactly when not denied and, if classes were named, one is advertised; its audience is the requesting client and its class is wanted and advertised if any was named. |
| Issuer.GrantedClassIs | scripts/fake_agent_pass.py:226-245 | The class granted is the first wanted one that is advertised, or orb when none was named. |
| Issuer.CodeIsPrinted | scripts/fake_agent_pass.py:191 | A code as it is printed. |
| Issuer.TokenClassIsAdvertisedIff | scripts/fake_agent_pass.py:226-230 | The class issued is advertised exactly when classes were named or the default is advertised. |
| Issuer.CodeInjective | scripts/fake_agent_pass.py:191 | Codes with different numbers differ whatever the clock says. |
| Issuer.Fake.Authorize | scripts/fake_agent_pass.py:189-207 | Every authorization issues a code never issued before and changes no other. |
| Issuer.Fake.Poll | scripts/fake_agent_pass.py:209-259 | One token request answers by the code's own state and touches no other code; an unknown code is refused. |
| DeviceClient.AwaitToken | scripts/float_rehearse.py:973-1008 | A token is returned exactly when a poll before the deadline and before any final answer brought one; a dropped poll never ends the wait, polling goes on until a final answer or the deadline, and each slow-down lengthens every later wait by five seconds. |
| DeviceClient.TokenArrivesWhen | scripts/float_rehearse.py:974-1003 | Against this issuer, whatever requests and replies are lost, the token arrives at the first delivered poll after the pending replies are used up, and at no other. |

## Left out

- Png.RoundTrip: DEFLATE is any pair of functions of which the second inverts the first on the data written; its internals are not modelled.
- Venue.Book.Trade: pausing, expiry, settlement, a missing mark and the roster limit are one input, `open`; average prices and profit are not modelled.
- Hedger.LedgerWithinCap: the payment layer is assumed to refuse anything above the maximum it is told.
- Hedger.Run: dry runs, the search for a settlement reference in payment answers, and a trade that lands only after the next tick has read the position are not modelled; the collateral seen after a top-up is a read, not computed.
- Settlement.SettleAll: reads and calls of one series see one history and one block time; a print posted between them is not modelled, nor the venue that has no escape hatch.
- RedeployProtocol.NoDecisionIsLost: the image of a redeploy is any archive; the receipt check of the same script is not modelled.
- OracleProtocol.RunKeepsInv: a cycle reads all timestamps in one step and a backfill takes its plan in one step; in this transition system a cycle's reads succeed, and BlindCycleIsSafeIff treats those that fail. Signing, values, confidence bounds and the skew limit on future timestamps are not modelled.
- Injection.BuildInjection: requires a cluster of at least one identity; with none the original raises while indexing.
- Collateral.PlanTopUp: requires a positive cost per contract, by which the source divides; gas and the reads after posting are not modelled.
- Binary floating point: quantities are reals, rounded only where the source rounds.
- Scene.Drawing.ZoneBox: the title that a zone writes, like a card's title and lines, is a label call of its own.
- Scene elements are held by value and looked up by position; the source shares one dictionary object between its list and its table. Style fields, text metrics and arrow extents are not modelled.
- SVG and text output of the preview, colours by name, and the command lines of all scripts.
- Anchors.CheckAnchors: the coverage, age and human-bound checks of the same command are not modelled, nor the spread ratio.
- The estimator and the cleaning filters the wash attack is aimed at.
- Loss socialisation in clearing and the contents of the withdrawal manifest.
- HTTP handling, token minting and signatures of the device grant; lifetime of its codes.
- Evaluation, rating and golden-file scripts, whose logic is a comparison against a threshold.
