# Factor cache and credit account, modelled in Dafny

This project models two small programs and proves properties of them.

**factor.cpp: the `LRU` class.** `factor` takes a vector of integers and
returns, for each number `n` in it, the numbers of the same vector that
divide `n` and are at most `sqrt(n)`, each together with its cofactor
`n / d`. Results are cached under a key made from the sorted vector: each
number in decimal followed by a comma. The cache has a fixed number of
slots. It keeps its keys in a doubly-linked recency list, most recently used
first, plus a hash index from key to node. A hit moves the node to the head.
A miss computes the result and inserts it at the head. When no slot is free,
the tail, which is the least recently used entry, is evicted first.

**credit.rb: the `Credit` class.** An account has a credit limit, an annual
rate, a start date, a balance and a transaction log. A withdrawal is refused
when it exceeds the balance. A deposit is always accepted. Each accepted
operation is logged as `[day in the 30-day cycle, signed amount]`.
`calculateInterest` adds up each entry's contribution over the rest of the
cycle and clamps a negative total to zero.

The project is laid out as follows:

- `wrappers.dfy`: the `Option` type.
- `seqs.dfy`: associativity of sequence concatenation, used by several proofs.
- `decimal.dfy`: `to_string` for integers, and its injectivity.
- `sorting.dfy`: the sort `factor` applies first. It is specified as sorted and a permutation, and two sorted permutations are shown to be equal.
- `keys.dfy`: `vtos`, the cache key, and its injectivity. Two requests get the same key exactly when they hold the same numbers with the same multiplicities.
- `divisors.dfy`: the divisor search. It has a recursive specification, a reference definition, and the two loops of `factor` as methods proved against the specification.
- `lru_cache.dfy`: the cache as a value. The list is a `seq` of keys and the index a `map`. Add, evict, move-to-front and lookup-or-insert are functions, each with its own invariant lemma. `RecencyOrder` states the LRU property over any history.
- `factor_cache.dfy`: the `LRU` class. Its fields are updated in place, and each method is proved against the value-level operation it performs. The file also holds `factor` as a step on cache values and the `test1` scenario.
- `credit.dfy`: the account as a value, with its ledger invariant, and the `Credit` class whose methods are proved against it.

## Model

| member | source | states |
|---|---|---|
| Decimal.ToDecimal | factor.cpp:69 | `to_string(x)` is non-empty, contains no comma, and starts with `-` exactly when `x` is negative |
| Decimal.DecimalInjective | factor.cpp:69 | two integers with the same decimal text are equal |
| Sorting.Sort | factor.cpp:199 | the sorted copy is in non-decreasing order and is a permutation of the input |
| Sorting.SortedUnique | factor.cpp:199 | two sorted sequences with the same multiset are equal, so the sorted copy depends only on the multiset of the request |
| Keys.KeySnoc | factor.cpp:68-70 | appending a number to the vector appends its decimal text and a comma to the key |
| Keys.KeyInjective | factor.cpp:66-72 | `vtos` is injective: the comma after every number keeps different vectors apart |
| Keys.SeparatorExample | factor.cpp:69 | `[1, 23]` and `[12, 3]` give the keys `1,23,` and `12,3,`, which differ |
| Keys.CacheKeyCanonical | factor.cpp:199-203 | two requests get the same cache key if and only if they are the same multiset of numbers |
| Keys.CacheKeysDiffer | factor.cpp:199-203 | a number in one request and not in the other makes their keys differ |
| Divisors.Contribution | factor.cpp:225-227 | a tested candidate `d` adds exactly `d` and `n / d` when `d` divides `n`, and nothing otherwise; `d` comes first, and the list has one element when `d * d == n` and two otherwise, so a perfect square's root is not added twice |
| Divisors.CandidatesApart | factor.cpp:222-228 | two different candidates that pass the square test and divide `n` never yield the same number |
| Divisors.SearchNoRepeats | factor.cpp:212-231 | for a request without repeated numbers, no divisor list holds a number twice |
| Divisors.ScanIsQualifying | factor.cpp:221-229 | on a sorted request, the inner loop that stops at the first candidate whose square exceeds `n` equals the filter over every candidate with square at most `n` |
| Divisors.QualifyingMembers | factor.cpp:224-228 | `x` is in the filtered list of `n` iff some candidate `d` of the request with `d * d <= n` divides `n` and `x` is `d` or `n / d` |
| Divisors.DivisorMapSpec | factor.cpp:212-231 | the result of a sorted request has exactly its numbers as keys, and the list of `n` holds exactly what the candidates with `d * d <= n` that divide `n` yield |
| Divisors.SearchSortedSpec | factor.cpp:197-231 | the same, stated over the request as the caller gave it, before sorting |
| Divisors.WorkedExample | factor.cpp:212-231 | `[2, 4, 5, 10, 20]` gives `{2: [], 4: [2], 5: [], 10: [2, 5], 20: [2, 10, 4, 5]}` |
| Divisors.ScanAsWrittenAgrees | factor.cpp:224 | the inner loop without a bound on `j` reads past the end exactly when every remaining candidate passes the guard; otherwise it computes the bounded scan |
| Divisors.ScanAsWrittenOverruns | factor.cpp:221-224 | on a sorted request of positive numbers, the unbounded loop overruns for some `n` exactly when every number of the request is 1 |
| Divisors.OverrunExample | factor.cpp:224 | the request `[1]` reads past the end |
| Divisors.ScanCandidates | factor.cpp:222-230 | the bounded inner loop computes the scan of `n` over the request |
| Divisors.ComputeDivisors | factor.cpp:212-231 | the two loops build exactly the divisor map of the request |
| LruCache.Empty | factor.cpp:60-64 | a new cache holds nothing, has every slot free, and satisfies the cache invariant |
| LruCache.Without | factor.cpp:154-158 | unlinking `k` keeps exactly the other keys |
| LruCache.EntriesPlusFree | factor.cpp:57 | the cached entries plus the free slots always add up to the capacity |
| LruCache.MoveFrontSpec | factor.cpp:150-165 | `moveFront` keeps the invariant and puts `k` at the head. It changes neither the index nor the free slots, keeps the order of the other keys, and does nothing when `k` is already the head |
| LruCache.EvictSpec | factor.cpp:121-138 | `deleteNode` keeps the invariant, removes exactly the tail from the list and the index, frees one slot, and leaves every other entry unchanged |
| LruCache.AddSpec | factor.cpp:84-109 | `addNode` of a new key keeps the invariant, puts the key at the head with its result, and leaves every other entry unchanged. With a free slot nothing is evicted; with none, exactly the tail is evicted |
| LruCache.AccessSpec | factor.cpp:203-208 | the lookup-or-insert step keeps the invariant, leaves the key at the head, and returns the cached entry on a hit and the new one on a miss |
| LruCache.PromotedSurvivesInsert | factor.cpp:203-208 | with at least two slots, a key just promoted by a hit is never evicted by the next insertion |
| LruCache.Recency | factor.cpp:99-103 | the keys of a history, most recent first, each once |
| LruCache.Replay | factor.cpp:197-237 | any history of requests keeps the cache invariant |
| LruCache.RecencyOrder | factor.cpp:84-165 | from an empty cache, after any history the list is the `capacity` most recently requested distinct keys, most recent first |
| LruCache.EvictAsWritten | factor.cpp:123-136 | `deleteNode` as written fails on a list of fewer than two nodes |
| LruCache.EvictAsWrittenSingleNode | factor.cpp:134-136 | with capacity 1 and a full cache, the written `deleteNode` fails, while the corrected one leaves the empty cache |
| FactorCache.FactorHit | factor.cpp:203-208 | a hit returns the cached result, keeps the index and the free slots, and makes the key the most recent |
| FactorCache.FactorMiss | factor.cpp:210-236 | a miss returns the divisor search's result, caches it at the head, and evicts the old tail when the cache was full |
| FactorCache.RepeatIsHit | factor.cpp:199-208 | asking again for the same numbers, in any order, is a hit that returns the same result and leaves the cache as it was |
| FactorCache.FactorRun | factor.cpp:197-237 | any sequence of `factor` calls keeps the cache invariant |
| FactorCache.FactorRunIsReplay | factor.cpp:197-237 | a sequence of `factor` calls leaves the cache that replaying their requests, each with the key of its sorted copy, leaves |
| FactorCache.FactorRunOrder | factor.cpp:197-237 | after any sequence of `factor` calls from an empty cache, the list holds the `capacity` most recently requested distinct keys, most recent first |
| FactorCache.Test1InputsDiffer | factor.cpp:264-289 | the nine vectors of `test1` hold positive numbers and are pairwise different multisets |
| FactorCache.Test1Opening | factor.cpp:291-300 | after the first seven calls of `test1` the recency order is the six requests, newest first |
| FactorCache.Test1Repeat | factor.cpp:301 | the repeated request for `input5` moves it back to the front |
| FactorCache.Test1Recency | factor.cpp:291-304 | the recency order of the whole `test1` history |
| FactorCache.Test1ShapedKeys | factor.cpp:291-304 | in a `test1`-shaped history the nine first-time keys are distinct and the two repeats reuse earlier keys |
| FactorCache.Test1ReplayOrder | factor.cpp:291-304 | a history whose keys follow the call pattern of `test1` over nine distinct keys leaves, head to tail, the ninth, eighth, seventh, fifth and sixth key |
| FactorCache.Test1Replay | factor.cpp:291-304 | the same history leaves exactly those five keys in the index |
| FactorCache.Test1Scenario | factor.cpp:261-312 | with five slots, the list printed at the end of `test1` is input9, input8, input7, input5, input6, for any nine distinct requests |
| FactorCache.Test1 | factor.cpp:261-312 | the same for the vectors `test1` uses |
| FactorCache.Lru.constructor | factor.cpp:60-64 | a new `LRU` is the empty cache of its size |
| FactorCache.Lru.Vtos | factor.cpp:66-72 | the loop builds the key of the vector |
| FactorCache.Lru.AddNode | factor.cpp:84-109 | updates the fields to `Add` of the old state and keeps the invariant |
| FactorCache.Lru.DeleteNode | factor.cpp:121-138 | updates the fields to `Evict` of the old state and keeps the invariant |
| FactorCache.Lru.MoveFront | factor.cpp:150-165 | updates the fields to `Touch` of the old state and keeps the invariant |
| FactorCache.Lru.GetAvailability | factor.cpp:167-169 | returns the free slots, which equal the capacity minus the number of cached results |
| FactorCache.Lru.GetHead | factor.cpp:171-173 | returns nothing exactly when nothing is cached; otherwise the most recently used key, which is cached |
| FactorCache.Lru.Factor | factor.cpp:197-237 | the new state and the result are the `factor` step on the old state, so hit, miss and eviction behave as the lemmas above state |
| CreditAccount.Period | credit.rb:16 | the logged day is congruent to the days elapsed plus one, modulo 30, and lies in `0..29` |
| CreditAccount.Open | credit.rb:4-10 | a new account has the whole limit as balance and an empty log |
| CreditAccount.OpenLedger | credit.rb:4-10 | a new account satisfies the ledger invariant and owes nothing |
| CreditAccount.WithdrawnSpec | credit.rb:12-22 | an amount above the balance changes nothing. Otherwise the balance drops by the amount, one entry `[day, -amount]` is appended, the amount owed grows by the amount, and the ledger invariant is kept |
| CreditAccount.DepositedSpec | credit.rb:24-30 | the balance grows by the amount, one entry `[day, amount]` is appended, the amount owed shrinks by the amount, and the ledger invariant is kept |
| CreditAccount.OwedIsLog | credit.rb:54 | under the ledger invariant, what is owed is the negated sum of the log |
| CreditAccount.RunLedger | credit.rb:12-30 | any sequence of operations keeps the ledger invariant and the fixed fields, and only appends to the log |
| CreditAccount.RunNonNegative | credit.rb:13-17 | from a non-negative balance, with no negative deposit, the balance never becomes negative |
| CreditAccount.Interest | credit.rb:37-43 | the interest is never negative: it is the accrued total when that is non-negative, and zero otherwise |
| CreditAccount.AccruedAppend | credit.rb:38-41 | the accrued total (before the clamp to zero) of two logs one after the other is the sum of their accrued totals |
| CreditAccount.AccrualOpposite | credit.rb:40 | a deposit cancels the accrual of a withdrawal of the same amount on the same day |
| CreditAccount.RepaidSameDay | credit.rb:40 | paying back a withdrawal on the same day leaves the interest unchanged |
| CreditAccount.AccrualSign | credit.rb:40 | at a non-negative rate, a withdrawal never lowers the interest and a deposit never raises it |
| CreditAccount.FirstDayWithdrawal | credit_test.rb:14-27 | withdrawing 500 of 1000 at rate 0.35 on the first day leaves 500, logs `[1, -500]`, and accrues 5250 / 365, about 14.38 |
| CreditAccount.Credit.constructor | credit.rb:4-10 | a new object holds the opened account and satisfies the ledger invariant |
| CreditAccount.Credit.Withdraw | credit.rb:12-22 | updates the fields to `Withdrawn` of the old state and keeps the ledger invariant |
| CreditAccount.Credit.Deposit | credit.rb:24-30 | updates the fields to `Deposited` of the old state and keeps the ledger invariant |
| CreditAccount.Credit.CalculateInterest | credit.rb:37-43 | the loop returns the clamped interest of the log |

## Left out

- Console output is left out, since it is output only: "Hit cache!", "Delet node", `PrettyPrint`, the key listing at the end of `test1`, the `puts` messages, `checklog` and `checkPayment`. The amount owed that `checkPayment` prints is modelled as `Owed`.
- `main` is empty and is not modelled.
- The doubly-linked list is modelled as a sequence of keys. The `previous`/`next` pointers, the walk to the tail, `new`/`delete` and aliasing between nodes are not modelled.
- FactorCache.Lru.GetHead returns the key of the head node rather than a pointer to it. The node's result is reachable through the index.
- FactorCache.Lru.constructor requires `size >= 1`. With size 0 the first miss calls `deleteNode` on an empty list, which dereferences NULL (factor.cpp:88-89, 123-128). `EvictAsWritten` reports this case as a failure. With a negative size, `availableNode` only decreases and never reaches 0 at factor.cpp:88, so the source never evicts and the cache grows without bound; the model does not cover that behaviour.
- FactorCache.Lru.Factor requires every number of the request to be positive. A 0 makes `%` divide by zero, and a negative number makes `sqrt` return NaN, which is then converted to `int`. Both are undefined in C++.
- FactorCache.Lru.AddNode requires the key to be absent, and FactorCache.Lru.MoveFront requires it to be present. These are the only ways `factor` calls them. Otherwise the source would leave a node that the index does not reach, or dereference `end()`.
- FactorCache.Lru.DeleteNode requires a non-empty list. On an empty list the source dereferences NULL.
- The limit `(int) sqrt(n)` is modelled as the test `d * d <= n`. The two agree on positive integers; floating-point rounding for very large `n` is not modelled.
- The numbers of a request and `size` are 32-bit C++ `int`s; the model uses unbounded integers and so also accepts values the program cannot receive. No arithmetic in factor.cpp overflows on positive `int`s (the limit is taken with `sqrt`, and `%` and `/` only shrink), so nothing else is lost. Ruby integers in credit.rb are unbounded, as in the model.
- Some behaviour described for this program is not in the code. The model follows the code:
  - An empty request is cached under the key `""`, with an empty result.
  - Non-positive numbers are not reported as an error; they are excluded by the precondition above.
  - Capacity 0 is not a "disabled cache".
- `Date.today` is left out. The current day is a parameter `today`, given as a whole day number, and `to_i` of a date difference is integer subtraction.
- CreditAccount.Interest and CreditAccount.Credit.CalculateInterest compute over reals. They do not model floating-point rounding or the final `round(2)`. They also do not model Ruby's integer division, which would apply if the rate were an `Integer`.
- CreditAccount.Credit.Withdraw and CreditAccount.Credit.Deposit require the ledger invariant. It holds for every object built by the constructor and is kept by both methods.
- Amounts are integers. Ruby would also accept floats, which are not modelled.
- credit_test.rb reads `balance` and `APR`, which `Credit` does not expose. Its assertions are used only as statements of intended behaviour, in `FirstDayWithdrawal`.
- The comment at credit.rb:35 says a withdrawal on day one accrues 29 days of interest. The code uses `31 - day`, which is 30 for day one. The model follows the code.

## Findings

| source | as written | input that shows it | evidently intended | confidence | as-written member | corrected member |
|---|---|---|---|---|---|---|
| factor.cpp:224 | the inner loop's only exit is `input[j] <= limit` failing, with no bound on `j` | `factor([1])`: `1 <= 1` holds for every element, so `input[1]` is read past the end | stop at the end of the request | not executed | Divisors.ScanAsWrittenOverruns | Divisors.ScanCandidates |
| factor.cpp:134-136 | after erasing the tail, `deleteNode` stores into its predecessor's `next` without a NULL check | `LRU(1)`, then `factor` of two different requests: the second miss evicts the only node, whose predecessor is NULL | evicting the only node leaves an empty list | not executed | LruCache.EvictAsWrittenSingleNode | LruCache.EvictSpec |
