# A verified model of the exchange engines

The repository quotes swaps on several automated market makers and reads swaps out of call
traces. Its engines work on exact integers, with the rounding of the contracts they imitate.
This project models those engines in Dafny and proves what they are for: invariants over whole
swaps, error bounds of the iterative solvers, and round trips of the parser.

`dafny verify dfyconfig.toml` checks everything. Each module follows one component.

| module | component |
|---|---|
| `Arithmetic`, `Means`, `Results` | directed division, powers, repeated squaring; the inequality of the means; the ways a computation is cut short |
| `Bits` | bits of a word, and the bit searches of `src/dex/utils.py` and of the cube root |
| `TickMath`, `TickLog`, `TickBase` | the price at a tick, and the tick at a price, of `src/dex/uniswap_v3.py`; both as powers of 1.0001 |
| `TickBitmap` | the search for the next initialised tick in a 256-bit word |
| `SwapMath`, `SwapEngine` | one swap step; whole swaps |
| `RoundTrip`, `Splitting`, `UniswapV3Pool` | swapping there and back; swapping in parts; the pool object |
| `StableSwap`, `CoinBalance` | the StableSwap iteration; the balance it finds against the exact invariant |
| `InvariantSearch`, `Settling`, `Cycling` | the search for the invariant; when it settles; where it never does |
| `CryptoSwap`, `CubeRoot`, `DynamicFees` | the other Curve solvers, and the fees |
| `UniswapV2`, `Formula`, `OptimalInput` | constant-product pairs, chains of pools, the most profitable input |
| `SwapTrace` | accounting of swaps over a call tree |
| `SignatureParser`, `SignatureTypes` | splitting a call signature, printing it back; signatures of nested types |

The style of the main results: a method repeats the source's statements, and its contract equates
the result with an independent definition (a linear scan, a linear walk over ticks, the greatest
integer below a root, a fold over a flattened tree). The lemmas then speak about those definitions.

Main results, hardest first:

* The price at a tick is strictly increasing in the tick over the whole range, although the code
  multiplies twenty rounded constants and rounds at every bit (`TickMath.SqrtRatioIncreases`), and
  the fixed-point logarithm finds exactly the greatest tick at or below a price
  (`TickLog.GetTickAtSqrtRatio`). Every price is the least Q64.96 number that is not below the
  power of 1.0001 at its tick, known to within one part in 2^56 (`TickBase.SqrtRatioIsPower`).
  Nothing is assumed: the constants are tied to 10001 over 10000 and to each other in whole numbers,
  and logarithms are evaluated by running the code's own squaring scheme on them.
* Whatever a swap meets on its way (crossings, empty words, partial steps), the loop ends, keeps
  the price in the range of its tick and the liquidity equal to the sum below it, accounts for
  every unit of input, ends only with the input used up or at an outermost price, and pays what the
  pool's weights differ by, less at most a unit a step (`RoundTrip.RunWeighed`).
  Swapping the output back never returns more than was put in (`RoundTrip.RoundTripNeverProfits`),
  and swapping in two parts never yields more than swapping the whole
  (`Splitting.SplittingNeverGains`).
* One swap step has a contract that fixes its result without any of its formulas
  (`SwapMath.StepContract`, `SwapMath.StepContractUnique`).
* Seven Newton steps give the cube root of every 256-bit number to within one unit, and nothing
  wraps on the way (`CubeRoot.Cbrt`).
* The search for the StableSwap invariant settles within its 255 steps for all balances that are
  not too unequal for their amplification, and then ends next to the invariant
  (`Settling.TameBalancesSettle`); there are pools, large ones with a usual amplification among
  them, for which it goes around a few values instead (`Cycling.LargePoolNeverSettles`).
* The root the chain formula sets up is the most profitable input exactly when all output reserves
  between the first pool and the last are one, or when nothing is to be earned at the margin; it is
  never above that input (`OptimalInput.CodedRootIsBest`, `OptimalInput.CodedRootFallsShort`).
* The StableSwap iteration for a balance never divides by zero, stops at the integer root or one
  above it, and stops by itself whenever its first step is below 2^254 (`StableSwap.NewtonY`). The
  balance found is at most three above the one that keeps the invariant exactly, and below it only
  as far as the rounding of the product explains (`CoinBalance.BalanceNearExact`).
* Recording a run of transfers keeps every address's flow of every token right, at every moment of
  the run, exactly when each transfer enters its sides once (`SwapTrace.RunExactWhen`).
* Parsing a printed list of types gives the list back exactly under a condition on the pieces, and
  printing what was parsed from any string gives back the string without its ends.

## Where the code and its own words disagree

* `src/formula.py:61` calls `prod`, which is not defined in the module: with two or more pools the
  function stops with a name error. Whether the name is available is a parameter of
  `OptimalInput.OptimalCoefficients`.
* `src/formula.py:61-65` takes the product of all output reserves but the last into every summand of
  k, where the formula of `src/formula.py:30` takes the first j - 1 only: k is too large for every
  chain of three and more pools, unless the inner output reserves are all one
  (`OptimalInput.CodedKRightWhen`). The same line has n^h in its first term; the code's n^(h - 1) is
  the right one.
* `src/formula.py:49-51` picks up one fee, the one with the highest share whatever it is a share of,
  and applies it to every pool; with different fees the root can miss the best input
  (`OptimalInput.FeeForAll`, `OptimalInput.DifferentFeesMiss`). A chain without fees leaves n at zero
  and the final division divides by zero (`OptimalInput.LeadingCoefficient`).
* `src/formula.py:16` subtracts a rounded-down remainder from the reserve, which rounds the output
  up; a pair pays the output rounded down and refuses the rounded-up one unless the division is
  exact (`UniswapV2.FormulaAgainstPair`).
* `src/dex/uniswap_v2.py:166-230` follows a return statement and is never reached; it would change
  nothing for the quote the function computes (`UniswapV2.CheckAcceptsQuote`).
* `src/apis/trace_tx.py:41-83`: an address with two events can have one transfer entered in both.
  `SwapTrace.SecondEventEntersTwice` gives such a run; `SwapTrace.TransferExactWhen` and
  `SwapTrace.RunExactWhen` say exactly when recording is exact.
* `src/apis/trace_tx.py:42-46` lets the sides of an event change places when an amount falls below
  zero; unless the other amount is below zero too, one is negative afterwards and
  `src/types.py:186-194` drops the event (`SwapTrace.TurnedIsValidWhen`).
* `src/dex/curve_utils.py:89` allows the search for the invariant 255 steps and returns the last value
  without a word. On the balances 1000 and 1 with the least amplification it has not settled by then
  and never would (`Cycling.SmallPoolNeverSettles`), nor on 840602.68 coins against 0.064 with 18
  decimals and an amplification of 200 (`Cycling.LargePoolNeverSettles`).
* `src/dex/curve_crypto_swap.py:277-292` returns nothing when it runs out of steps; the model calls
  that `NoConvergence`.

## Model

| member | source | states |
|---|---|---|
| `Bits.MostSignificantBit` | src/dex/utils.py:1-37 | the result is the exponent of the greatest power of two not above x |
| `Bits.LeastSignificantBit` | src/dex/utils.py:40-82 | the result is the lowest set bit of the low 256 bits, whenever one of them is set |
| `Bits.SnekmateLog2` | src/dex/curve_three_crypto_swap_ng.py:823-854 | the floor logarithm, or the ceiling one when rounding up, with zero mapped to zero |
| `TickMath.DecayAllBits` | src/dex/uniswap_v3.py:518-561 | the product over all twenty bits the code tests is the product over the bits up to the highest set one |
| `TickBase.BaseLog` | src/dex/uniswap_v3.py:519-561 | the logarithm the other rows count in is that of 1.0001, halved: 10001 over 10000 lies between powers of two with exponents 134 units of 2^-48 apart |
| `TickBase.FactorIsPower` | src/dex/uniswap_v3.py:519-561 | the square of each of the twenty constants is 2^256 times 1.0001 to the power of minus its bit, to within one part in 2^78 |
| `TickBase.DecayIsPower` | src/dex/uniswap_v3.py:518-561 | so is the truncated product over any number of bits, to within one part in 2^56 |
| `TickBase.InverseIsMost` | src/dex/uniswap_v3.py:563-565 | the inverse is the most whose product with the ratio stays below 2^256 |
| `TickBase.RoundUpIsLeast` | src/dex/uniswap_v3.py:570 | the rounding finds the least Q64.96 number that is not below the ratio, also when the division is exact |
| `TickMath.DecayNear` | src/dex/uniswap_v3.py:518-561 | multiplying and truncating bit by bit keeps the logarithm within a slack linear in the tick |
| `TickBase.SqrtRatioIsPower` | src/dex/uniswap_v3.py:514-570 | at every tick, of either sign, the price is the least Q64.96 number not below a number whose square is 2^256 times 1.0001^tick to within one part in 2^56; at tick zero it is 2^96 |
| `TickMath.SqrtRatioIncreases` | src/dex/uniswap_v3.py:514-570 | a higher tick always has a strictly higher price |
| `TickMath.SqrtRatioRange` | src/dex/uniswap_v3.py:514-570 | all prices lie between the two ratio constants, which are the prices of the two end ticks |
| `TickMath.TickAtGalois` | src/dex/uniswap_v3.py:573-595 | comparing a price with the price of a tick is comparing the tick of the price, found by walking down, with that tick |
| `TickLog.RatioMsb` | src/dex/uniswap_v3.py:597-635 | the cascade, which tests for 128 bits twice, finds the floor logarithm of every ratio below 2^192 |
| `TickLog.NormalisedRange` | src/dex/uniswap_v3.py:637-640 | the mantissa starts between 2^127 and 2^128 whichever way it is shifted |
| `TickLog.LogRound` | src/dex/uniswap_v3.py:644-711 | a squaring keeps the mantissa in its range and sets one digit of the logarithm in a position that was clear |
| `TickLog.LogDigitsBracket` | src/dex/uniswap_v3.py:644-711 | the digits of any number of squarings bracket the true logarithm of the mantissa |
| `TickLog.RatioLogNear` | src/dex/uniswap_v3.py:597-711 | the fixed-point logarithm never exceeds the true one and misses less than one digit and fifteen units |
| `TickLog.CandidatesBracket` | src/dex/uniswap_v3.py:713-716 | the tick lies between the two candidates, which are at most one apart, for every price |
| `TickLog.GetTickAtSqrtRatio` | src/dex/uniswap_v3.py:573-728 | the result is the greatest tick whose price is at most the given one |
| `TickBitmap.CompressIsFloor` | src/dex/uniswap_v3.py:262-265 | truncating and correcting negative ticks is the floor of the quotient, for every spacing |
| `TickBitmap.ScanDownNearest` | src/dex/uniswap_v3.py:297-323 | the scan the search is compared with stops at the nearest set bit below in the word, or at its bottom, and skips none |
| `TickBitmap.ScanUpNearest` | src/dex/uniswap_v3.py:268-295 | the same upwards, to the top of the word |
| `TickBitmap.NextDown` | src/dex/uniswap_v3.py:314-323 | masking and the highest set bit find what the linear scan finds |
| `TickBitmap.NextUp` | src/dex/uniswap_v3.py:285-295 | masking and the lowest set bit find what the linear scan finds, for every 256-bit word |
| `SwapMath.Amount0UpIsLeast` | src/dex/uniswap_v3.py:859-890 | rounding up twice gives the least amount of token 0 that pays for the move |
| `SwapMath.Amount0DownIsMost` | src/dex/uniswap_v3.py:859-890 | rounding down twice gives the greatest amount of token 0 the move yields |
| `SwapMath.Amount1UpIsLeast` | src/dex/uniswap_v3.py:893-917 | the least amount of token 1 that pays for the move |
| `SwapMath.Amount1DownIsMost` | src/dex/uniswap_v3.py:893-917 | the greatest amount of token 1 the move yields |
| `SwapMath.LessFeeIsMost` | src/dex/uniswap_v3.py:743-745 | an amount less its fee is the most that with the fee on it stays within the amount |
| `SwapMath.NextPriceIsFurthest` | src/dex/uniswap_v3.py:981-996 | the next price of an input is the furthest that the amount pays for, in either direction |
| `SwapMath.StepMeetsContract` | src/dex/uniswap_v3.py:742-764 | every completed step for an exact input: least input, greatest output, furthest price, never past the target, input and fee within what remains and equal to it when short of the target |
| `SwapMath.StepContractUnique` | src/dex/uniswap_v3.py:731-832 | that contract admits one step only |
| `SwapMath.StepCompletes` | src/dex/uniswap_v3.py:731-843 | with liquidity below 2^128 and prices below 2^160 no assertion or division of the code can fail |
| `SwapEngine.KnownSpacings` | src/dex/uniswap_v3.py:411-419 | exactly four fees are known, and but for the lowest one the spacing is a fiftieth of the fee |
| `SwapEngine.NextTickIsNearest` | src/dex/uniswap_v3.py:260-334 | the next tick lies strictly ahead, within the tick range, and no initialised tick is passed over on the way |
| `SwapEngine.CrossedLiquidity` | src/dex/uniswap_v3.py:361-372 | adding or subtracting the net liquidity of the tick reached gives the sum below the new tick |
| `SwapEngine.StepKeeps` | src/dex/uniswap_v3.py:254-375 | every pass of the loop keeps price, tick and liquidity consistent, moves the right way, takes the least and gives the most for its move, takes the least fee while input is left, and moves the tick or uses up the input |
| `SwapEngine.RunDecreases` | src/dex/uniswap_v3.py:254-375 | the loop ends: the tick gets strictly closer to its end, or the input gets less, and never below zero |
| `SwapEngine.RunKeeps` | src/dex/uniswap_v3.py:254-377 | over a whole swap the invariant holds at the end, input plus fees plus the rest is the original input, the fees cover the input, and the swap ends with nothing left or at the lowest or highest price |
| `SwapEngine.RunCompletes` | src/dex/uniswap_v3.py:254-377 | a valid pool whose words are loaded never fails, whatever the input |
| `SwapEngine.RunValueDown` | src/dex/uniswap_v3.py:254-377 | token 0 in: total output times 2^192 is at most the input net of fees times the square of the starting price root |
| `SwapEngine.RunValueUp` | src/dex/uniswap_v3.py:254-377 | token 1 in: total output times the square of the starting price root is at most the input net of fees times 2^192 |
| `RoundTrip.StepWeight` | src/dex/uniswap_v3.py:254-377 | a step changes the pool's summed weight by its liquidity times its move, across any boundary |
| `RoundTrip.RunWeighed` | src/dex/uniswap_v3.py:254-377 | over a whole swap the trader pays at least, and gets at most, the difference of the pool's weights of either token, and either is off by at most a unit a step |
| `RoundTrip.Comonotone` | src/dex/uniswap_v3.py:254-377 | the pool's weights of the two tokens move the same way between any two prices |
| `RoundTrip.RoundTripNeverProfits` | src/dex/uniswap_v3.py:222-397 | swapping one way and sending any part of the output back never returns more than the first swap took net of fees |
| `Splitting.MoreYieldsMore` | src/dex/uniswap_v3.py:254-377 | from the same place, a swap with more input yields at least as much |
| `Splitting.BothAtOnce` | src/dex/uniswap_v3.py:731-832 | a step given two inputs at once yields at least what the two yield one after the other, and reaches the target if they do, on no more input and fee |
| `Splitting.NextTickStays` | src/dex/uniswap_v3.py:260-334 | from any tick on the way to the next one the search finds the same next one |
| `Splitting.SplittingNeverGains` | src/dex/uniswap_v3.py:222-397 | a swap followed by another in the same direction yields no more than one swap of both inputs, whatever is crossed in either |
| `UniswapV3Pool.PoolInfo.FindNextTick` | src/dex/uniswap_v3.py:262-335 | the search over bitmap words finds the tick the scan finds, or reports the missing word |
| `UniswapV3Pool.PoolInfo.CalculateAmountOut` | src/dex/uniswap_v3.py:222-397 | the loop gives the output of the run, or its error; the input is used up or the price is an outermost one, and the output is the difference of the pool's weights less at most a unit a step; with reflect price, tick and liquidity of the end are stored, otherwise and on errors nothing changes |
| `UniswapV3Pool.PoolInfo.SwapThereAndBack` | src/dex/uniswap_v3.py:222-397 | two quotes with reflect, the second sending back any part of the first one's output: it never returns more than the first took |
| `UniswapV3Pool.PoolInfo.SwapInTwoParts` | src/dex/uniswap_v3.py:222-397 | two quotes with reflect in one direction yield no more than one quote of the whole |
| `StableSwap.RootIsRoot` | src/dex/curve_utils.py:66-76 | every quadratic with a non-negative right side has an integer root, found by a linear search |
| `StableSwap.RootIsGreatest` | src/dex/curve_utils.py:66-76 | the integer root is unique and nothing above it satisfies the inequality |
| `StableSwap.StepTowardsRoot` | src/dex/curve_stable_swap_ng.py:477-479 | a step never lands below the root, at least halves the distance above it, and moves off the root by at most one |
| `StableSwap.CloseStepsAreRoot` | src/dex/curve_stable_swap_ng.py:481-486 | whenever the loop's stopping test holds, the value is the root or one above it |
| `StableSwap.FarStepsDivide` | src/dex/curve_stable_swap_ng.py:477-479 | whenever it does not, the next divisor is positive |
| `StableSwap.NewtonY` | src/dex/curve_stable_swap_ng.py:473-488 | from a positive divisor: no division by zero, never below the root, at most one above it when it settles, and it settles when the first step is below 2^254; from a zero divisor the division error |
| `StableSwap.Reduce` | src/dex/curve_utils.py:51-63 | one pass gives the sum and the rounded product of the other balances, or the division error exactly when one of them is empty |
| `StableSwap.OthersAre` | src/dex/curve_stable_swap_ng.py:457-464 | the balances the pass uses are the first n with the new one put in and the sought one taken out |
| `CoinBalance.LinearPartNear` | src/dex/curve_stable_swap_ng.py:468 | the coded linear coefficient is the exact one less a fraction of one |
| `CoinBalance.RightSideNear` | src/dex/curve_stable_swap_ng.py:465-467 | the coded right side is the exact one less a fraction and less what the rounding of the product loses |
| `CoinBalance.GetY` | src/dex/curve_stable_swap_ng.py:442-471 | the assertions, the division error exactly when something is empty, and otherwise a balance that solves the exact quadratic of the other balances up to its slope and the stated error, and the root or one more of the coded one |
| `CoinBalance.GetYD` | src/dex/curve_utils.py:48-76 | the same at a lowered invariant, with one coin left out |
| `CoinBalance.BalanceNearExact` | src/dex/curve_utils.py:48-76 | such a balance is at most three above the one that keeps the exact invariant, and more than one below it only as far as the stated error over the slope |
| `InvariantSearch.GetD` | src/dex/curve_utils.py:79-111 | the loop computes the search for the invariant from the sum of the balances |
| `InvariantSearch.StepMeasuresGap` | src/dex/curve_utils.py:92-106 | how far a step moves brackets the difference of the two sides of the invariant |
| `InvariantSearch.SettledInvariant` | src/dex/curve_utils.py:89-111 | a settled search ends next to a point where the invariant holds up to two units of the result; an empty balance among others is a division error |
| `InvariantSearch.NearInvariantIsExact` | src/dex/curve_utils.py:92-111 | there the two sides of the exact invariant of the balances agree up to twice the slope and the rounding of the product |
| `InvariantSearch.BalancedInvariant` | src/dex/curve_utils.py:79-111 | for equal balances, any number of them and any amplification, the search settles at once on their sum |
| `Settling.ChainNoise` | src/dex/curve_utils.py:92-94 | the rounded product misses the exact one by at most 1 + R + ... + R^(n-1), when no divisor is below one part in R of the value |
| `Settling.DivisorsBelowSum` | src/dex/curve_utils.py:92-94 | the divisors multiply to at most the power of one more than the sum, so the search starts above the invariant |
| `Settling.NotPast` | src/dex/curve_utils.py:95-106 | a rounded step down never passes the exact root by a whole unit |
| `Settling.SettlesBelow` | src/dex/curve_utils.py:95-111 | just below the root a step is at most one, so the search stops there |
| `Settling.Lowers` | src/dex/curve_utils.py:95-106 | a step down takes its share off the height above the root, but for the noise |
| `Settling.TameBalancesSettle` | src/dex/curve_utils.py:79-111 | for any number of balances of which none is below one part in R of the mean, with an amplification that outweighs 1 + R + ... + R^(n-1) and a 256-bit sum large against R and n, the search settles within 255 steps, next to the invariant |
| `Settling.PairSettles` | src/dex/curve_utils.py:79-111 | so it always does for two balances within a factor of nine of each other and an amplification of at least six |
| `Cycling.SmallPoolNeverSettles` | src/dex/curve_utils.py:89-111 | for balances 1000 and 1 with the least amplification the search goes back and forth between two values until its steps are used up |
| `Cycling.LargePoolNeverSettles` | src/dex/curve_utils.py:89-111 | for 840602.68 and 0.064 coins with 18 decimals and an amplification of 200 it goes around three values until its steps are used up |
| `InvariantSearch.GetYFromBalances` | src/dex/curve_utils.py:114-154 | first the invariant of the balances, then, with the errors of both, a balance that solves the exact quadratic at it up to its slope and the stated error |
| `StableSwap.QuadraticIsInvariant` | src/dex/curve_utils.py:48-76 | without rounding, solving the quadratic is completing the balances to the StableSwap invariant, both ways |
| `StableSwap.ChainRoundsDown` | src/dex/curve_utils.py:55-63 | the rounded product the solvers use never exceeds the exact one |
| `CryptoSwap.Insert` | src/dex/curve_three_crypto_swap.py:228-238 | one round moves a balance to its place and keeps the array's contents and order |
| `CryptoSwap.Sort` | src/dex/curve_three_crypto_swap.py:222-240 | the first n balances come out high to low, the whole is a permutation, the rest is untouched |
| `CryptoSwap.MeanStep` | src/dex/curve_crypto_swap.py:286 | the doubly rounded mean step is the singly rounded step of the quadratic iteration |
| `CryptoSwap.GeometricMean` | src/dex/curve_crypto_swap.py:276-292 | the result is the integer square root of the product, above it by at most one or by less than its 10^18th part; it is found whenever the mean of the balances is below 2^254 |
| `CubeRoot.UnsafeOverflow` | src/dex/curve_three_crypto_swap_ng.py:15-29 | repeated subtraction ends at the representative in the type's range, for signed and unsigned types |
| `CubeRoot.WrapsUnique` | src/dex/curve_three_crypto_swap_ng.py:15-29 | there is only one such representative |
| `CubeRoot.Wrap256IsWraps` | src/dex/curve_three_crypto_swap_ng.py:15-29 | for unsigned 256-bit numbers it is the remainder |
| `CubeRoot.NewtonAboveRoot` | src/dex/curve_three_crypto_swap_ng.py:752-760 | a step from any guess lands no lower than the integer cube root |
| `CubeRoot.NewtonContracts` | src/dex/curve_three_crypto_swap_ng.py:752-760 | above the root each step squares the relative distance |
| `CubeRoot.GuessIsGood` | src/dex/curve_three_crypto_swap_ng.py:736-745 | the guess from the floor logarithm has a cube between x / 2.001 and x / 0.999 |
| `CubeRoot.FirstStep` | src/dex/curve_three_crypto_swap_ng.py:752-760 | one step from such a guess is within a twelfth above the root |
| `CubeRoot.WrappedGuess` | src/dex/curve_three_crypto_swap_ng.py:736-745 | nothing wraps in the initial guess |
| `CubeRoot.NewtonLine` | src/dex/curve_three_crypto_swap_ng.py:752-760 | nothing wraps in a step, which is the Newton step, or zero from zero |
| `CubeRoot.OneOfSeven` | src/dex/curve_three_crypto_swap_ng.py:761-814 | each further line doubles the number of right digits |
| `CubeRoot.Cbrt` | src/dex/curve_three_crypto_swap_ng.py:713-821 | for every 256-bit x the result is the cube root in 18 digits to within one unit of its scale |
| `DynamicFees.DynamicFeeInRange` | src/dex/curve_stable_swap_ng.py:490-499 | between the base fee and the multiplied fee, the base fee at balance, the multiplied fee when one side is empty, and the division error only when both are |
| `DynamicFees.DynamicFeeIs` | src/dex/curve_stable_swap_ng.py:490-499 | with a multiplier above one the fee is the quotient of the multiplied fee by one plus the rest of the multiplier times four times the product of the balances over the square of their sum |
| `DynamicFees.DynamicFeeGrows` | src/dex/curve_stable_swap_ng.py:490-499 | more unequal balances never have a lower fee |
| `Means.MeansInequality` | src/dex/curve_three_crypto_swap.py:248-262 | the inequality of the arithmetic and geometric means for any number of balances, in integers |
| `DynamicFees.ConcentrationAtMostUnit` | src/dex/curve_three_crypto_swap.py:255-262 | the truncated product over the mean never exceeds one unit |
| `DynamicFees.ConcentrationIs` | src/dex/curve_three_crypto_swap.py:255-262 | the concentration is the exact product over the power of the mean less at most 1 + n + ... + n^(n-1) units |
| `DynamicFees.CryptoFeeInRange` | src/dex/curve_three_crypto_swap.py:242-265 | the fee lies between the mid and the out fee for every non-empty pool, is the mid fee at balance, and fails only for an empty pool |
| `DynamicFees.ReductionCoefficient` | src/dex/curve_three_crypto_swap.py:247-265 | the coefficient is fee gamma over fee gamma and what the concentration of the balances is short of one unit, rounded down; the concentration itself without a fee gamma; the division error for an empty pool |
| `DynamicFees.Fee` | src/dex/curve_three_crypto_swap.py:242-245 | with as many coins as balances the fee blends the mid and the out fee by the coefficient at the concentration of the balances, lies between the two, is the mid fee at balance, and fails for an empty pool only |
| `DynamicFees.TwoCoinConcentrationRange` | src/dex/curve_crypto_swap.py:205-217 | for two coins the truncated concentration is at most one unit, and one unit exactly at balance |
| `DynamicFees.TwoCoinFeeInRange` | src/dex/curve_crypto_swap.py:205-217 | the fee blends the two fees by fee gamma and the concentration of the balances, exact to two units, lies between them, and the division error occurs exactly for an empty pool or a balanced one without a fee gamma |
| `UniswapV2.QuoteIsLargest` | src/dex/uniswap_v2.py:153-156 | an output passes the pair's rule exactly when it is at most the quote |
| `UniswapV2.FormulaAgainstPair` | src/formula.py:5-18 | the formula's quote is the ceiling of the pair's quotient, at most one more, equal exactly when the division is exact, and exactly then accepted by the pair |
| `UniswapV2.CheckAcceptsQuote` | src/dex/uniswap_v2.py:193-230 | the unreachable check passes every output up to the quote, zeroes every output above it, and asserts on draining a reserve |
| `UniswapV2.PoolInfo.CalculateAmountOut` | src/dex/uniswap_v2.py:121-164 | the largest output the pair's rule lets through, or the division error; with reflect the stored reserves move by the trade, else they stay; they stay positive and their product does not fall |
| `UniswapV2.SwapKeepsProduct` | src/dex/uniswap_v2.py:153-162 | a swap in either direction keeps reserves positive and leaves at least the fee in their product |
| `UniswapV2.RunKeepsProduct` | src/dex/uniswap_v2.py:142-164 | so does any run of swaps |
| `UniswapV2.NoRunProfits` | src/dex/uniswap_v2.py:142-164 | after any run of swaps a reserve that has not grown is paid for by the other |
| `UniswapV2.OutAndBack` | src/dex/uniswap_v2.py:142-164 | swapping the output back returns at most the input |
| `UniswapV2.SplittingNeverGains` | src/dex/uniswap_v2.py:153-156 | swapping any number of pieces on one side yields at most the swap of their sum |
| `Formula.OptimalIsCeiling` | src/formula.py:14-18 | for every fee the formula is the ceiling of the quotient whose floor the pools pay; zero when nothing divides; never more than the reserve |
| `Formula.GetMultiHopAmountOut` | src/formula.py:20-23 | the loop composes the pools in order |
| `Formula.ClosedFormBetweenChains` | src/formula.py:14-23 | for every chain the closed form lies between the chain rounded down and the coded chain |
| `Formula.ExactIsClosedForm` | src/formula.py:25-40 | the closed form is the chain without rounding |
| `Formula.ChainsNearExact` | src/formula.py:14-23 | the coded chain is above the chain without rounding by at most one unit a pool, carried through the steepness of the later pools; the chain that rounds down is as near below it |
| `Formula.BestInput` | src/formula.py:29-34 | over all inputs and any number of pools with any fees, an input earns the most if and only if it is a root of the quadratic, or is zero and the closed form does not start out steeper than one |
| `Formula.EarnsSomewhere` | src/formula.py:29-34 | some input earns something exactly when the closed form starts out steeper than one |
| `OptimalInput.OptimalCoefficients` | src/formula.py:42-70 | for all pools, also with fees of one and more, the loops compute the quadratic, or stop on the missing name for two and more pools, or on an empty chain |
| `OptimalInput.DearestIs` | src/formula.py:43-51 | the fee picked up is that of the first pool with the highest share, and none when all are zero |
| `OptimalInput.ClosedFormProducts` | src/formula.py:56-57 | with one fee the products the code takes are the ends of the closed form |
| `OptimalInput.CodedKExcess` | src/formula.py:59-66 | what one more pool adds to the excess of the coded k over the right one, for any number of pools with one fee |
| `OptimalInput.CodedKRightWhen` | src/formula.py:59-66 | for every chain with one fee and positive reserves the coded k is at least the right one, and equal if and only if every output reserve but the first and the last is one |
| `OptimalInput.CodedRootIsBest` | src/formula.py:42-74 | for every chain with one fee, a non-negative root of the coded quadratic is an input that earns the most if and only if the inner output reserves are all one, or the chain starts out as steep as one |
| `OptimalInput.CodedRootFallsShort` | src/formula.py:42-74 | it is never above the input that earns the most |
| `OptimalInput.FeeForAll` | src/formula.py:43-70 | for pools with different fees the coded quadratic is that of the chain in which every pool takes the fee picked up |
| `OptimalInput.DifferentFeesMiss` | src/formula.py:43-70 | two pools with different fees whose coded root does not earn the most |
| `OptimalInput.LeadingCoefficient` | src/formula.py:66-74 | the divisor is zero exactly when no pool takes a fee |
| `SwapTrace.UpdateFlow` | src/apis/trace_tx.py:42-68 | in every branch, the turned-round ones included, an event's flow moves by the value |
| `SwapTrace.SwapEvent.Take` | src/apis/trace_tx.py:49-68 | exactly which events take a transfer and in which role; the value is added to the side that is free or holds the token, or taken off the other one, and the sides change places when an amount falls below zero; the flow of the token moves by the value and no other flow moves |
| `SwapTrace.TurnedIsValidWhen` | src/apis/trace_tx.py:42-46 | an event whose sides changed places counts as a swap only if both amounts were below zero |
| `SwapTrace.SwapEvents.SetTransferEvent` | src/apis/trace_tx.py:41-83 | every old event takes its part of the transfer or stays as it is, and each side nothing took opens a new event with the value, recipient first |
| `SwapTrace.SwapEvents.SetSwapEvent` | src/apis/trace_tx.py:27-39 | afterwards every event of the address carries the exchange and there is one; old events keep their address, tokens and amounts, events of other addresses their exchange too; the list grows by one exactly if the address had none |
| `SwapTrace.SwapEvents.Search` | src/apis/trace_tx.py:85-134 | the recursive walk performs the actions of the flattened tree in order, looking inside no transfer of value |
| `SwapTrace.SearchDexTransaction` | src/apis/trace_tx.py:85-134 | the same from an empty list |
| `SwapTrace.TransferNet` | src/apis/trace_tx.py:41-83 | the exact effect on every address, every token and the total: the value once for each event that takes it, or once for a new one |
| `SwapTrace.TransferExactWhen` | src/apis/trace_tx.py:41-83 | recording is exact for all addresses and tokens if and only if no side is entered twice, or nothing moves, or it moves to itself evenly |
| `SwapTrace.OneEachAfter` | src/apis/trace_tx.py:70-81 | exactly when a transfer leaves one event an address |
| `SwapTrace.RunAccounts` | src/apis/trace_tx.py:27-83 | as long as no address gains a second event, recorded flows are the net transfers and totals do not change |
| `SwapTrace.RunExactWhen` | src/apis/trace_tx.py:27-83 | recorded flows are the net transfers at every moment of a run if and only if every transfer of it meets the condition for one transfer when it is recorded |
| `SwapTrace.SearchAccounts` | src/apis/trace_tx.py:85-134 | so a walk from an empty list accounts for the transfers of the tree, read off the calls themselves, and totals are zero |
| `SwapTrace.SearchMarks` | src/apis/trace_tx.py:85-134 | after any walk the events of an address carry the exchange of the last swap call on it in the tree, or none, and some event carries it if there was such a call |
| `SwapTrace.SecondEventEntersTwice` | src/apis/trace_tx.py:41-83 | four transfers after which an address's recorded flow is wrong and the total is not zero |
| `SignatureParser.ParseTypestring` | src/multicall/signature.py:42-59 | the loop yields the text between the commas at depth zero |
| `SignatureParser.PrintedTypes` | src/multicall/signature.py:42-59 | for every string, joining the parsed types gives back the string without its ends |
| `SignatureParser.PrintedListParses` | src/multicall/signature.py:42-59 | a printed list parses to itself if and only if it is empty, or not the single empty text and its pieces hold no comma at depth zero and close what they open, the last excepted |
| `SignatureParser.ParseSignature` | src/multicall/signature.py:18-39 | the loop yields the text up to the end of the first outermost group and the types of the first two; it fails on an unopened bracket or with fewer than two groups, and only then |
| `SignatureParser.NeverNegativeMeans` | src/multicall/signature.py:31-32 | popping never fails exactly when every prefix opens at least as much as it closes |
| `SignatureParser.SignatureOfGroups` | src/multicall/signature.py:18-39 | a name and two groups are split at the outermost brackets, whatever is nested in them |
| `SignatureParser.PrintedSignatureParses` | src/multicall/signature.py:18-59 | printing a name, input and output types and parsing the text gives the three back |
| `SignatureTypes.TupleParses` | src/multicall/signature.py:42-59 | for types built from names and tuples at any depth, splitting the text of a tuple gives the texts of its parts |
| `SignatureTypes.TypedSignatureParses` | src/multicall/signature.py:18-59 | a name with nested input and output types, printed and parsed, gives the name with its inputs and the texts of both lists |

## Left out

- UniswapV3Pool.PoolInfo.CalculateAmountOut: words and ticks not in the maps are the failures `MissingWord` and `MissingTick`, because fetching them is network access; the refresh of stale words by block number, the prefetch of the word of the next tick, and the `timeout` break are not modelled; the observation fields and the token names are not part of the state, the direction is a parameter.
- SwapMath.StepMeetsContract: only amounts that are not negative; the exact-output branch of the step and the price rules with `add` false are never used by the loop.
- SwapEngine.RunCompletes: a pool is valid when its words and its net liquidities agree and every range holds between 0 and 2^128 of liquidity, as the contracts guarantee.
- TickLog.LogRound: the bitwise or is an addition; the contract shows that the position was clear, so the two agree.
- InvariantSearch.SettledInvariant: an amplification of at least one, as every pool has; `GetD` and its search are modelled for every amplification.
- Settling.TameBalancesSettle: a sufficient condition; which of the balances outside it also settle is not characterised.
- StableSwap.NewtonY: when the first step is 2^254 or more and the loop runs out of steps, only that the result is not below the root.
- CoinBalance.GetY: a negative invariant is only covered by the coded coefficients; the number of coins is at most the number of balances.
- The variant `_get_D` of `src/dex/curve_stable_swap_ng.py:409-440`, which divides by n^n once at the end.
- CryptoSwap.GeometricMean: a loop that runs out of steps returns nothing in the source and is the failure `NoConvergence` here.
- CubeRoot.UnsafeOverflow: the widths 8 and 256, as the source asserts; signed division and subtraction are not used by the cube root.
- DynamicFees.CryptoFeeInRange: as many coins as balances, as every caller passes.
- The gamma-dependent `_newton_y`, `_newton_D` and the analytic `_get_y` of the crypto pools: their behaviour is only asserted by range checks in the source.
- UniswapV2.PoolInfo.CalculateAmountOut: the comparison of the two token names is the parameter `reverse`.
- Formula.BestInput: over the reals, with the root given by its equation; the float square root and the final floor are not modelled.
- OptimalInput.CodedRootIsBest: chains with one fee; for different fees `FeeForAll` names the chain the root belongs to, and `Formula.BestInput` decides for the pools themselves.
- SwapTrace.SwapEvents.Search: the slices of the hexadecimal input are given decoded, and addresses are only compared; the test for a missing `input` key comes after its use in the source and can never hold.
- Filtering and sorting of swap events, transactions, and everything that talks to a node, relay or website.
- SignatureParser.ParseSignature: selectors and ABI encoding of arguments.
- Prices and slippage in floats, simulation, optimisation by hill-climbing, and the embedded virtual machine.
