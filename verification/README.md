# Dynamic programming, modelled in Dafny

This project models a teaching module on dynamic programming
(`dynamic-programming.js`) and the two small data structures it borrows
from `utils.js`. It covers four problems, each solved naively and then with
a memo or a table:

- **Fibonacci**: `fib0`, the memoised `topDownFib` and the table-filling
  `bottomUpFib`.
- **Coin change**: `changeNonDP` counts the ways to make `n` from a list of
  denominations. `topDownChange` memoises it and `bottomUpChange` fills a
  table.
- **Cake thief** (unbounded knapsack): `stealCakes`, its helpers
  `_onlyOneFits` and `_allCakesLarger`, and the memoised `topDownSteal`.
  The memo is keyed by `hashCakes`, which numbers the cakes with
  `assignIds`.
- **House robber**: the houses form a binary tree, and two houses joined by
  an edge cannot both be robbed. The pieces are `rob` with its base cases
  `_oneHouse` and `_threeHouses`, and `robDP`, which memoises `rob` by house
  number after `assignHouseIds` has numbered the houses breadth-first with
  the queue `Q`.
- **Data structures from utils.js**: the binary tree `BTNode`, with
  `nextDir` and `insert`, and the sample `house` built with it. The FIFO
  queue `Q`, with `enQ`, `deQ` and `notMt`.

How things are represented:

- **Pure code** becomes Dafny functions over values. This covers `fib0`,
  `changeNonDP`, `stealCakes`, `rob`, `_oneHouse`, `_threeHouses` and
  `_allCakesLarger`.
- **Code that changes state** stays imperative:
  - `BTNode`, `Q` and the cakes are classes whose fields the methods update.
  - `bottomUpChange` fills a two-dimensional array in nested loops.
  - `assignHouseIds` drains a queue in a `while` loop and writes each
    house's `id` field.
- **`BTNode` objects** carry a ghost `Tree` value (`model`) and the set of
  objects they own (`Repr`). Their operations are specified through pure
  functions on `Tree`: `Inserted`, `Rob`, and `LevelOrder` (the
  breadth-first order).
- **Memos** (`fibMemo`, `coinMemo`, `cakeMemo`, `robberMemo`) are maps that
  are threaded through one top-level computation. The source's
  `if (memo[key])` treats a stored 0 as a miss, and this is modelled
  literally.
- **Thrown errors**: most are results of an `Option` or `Result` type. These
  are the JavaScript `TypeError` from reading a property of `null` and the
  `Error` thrown by `deQ`. A few are preconditions instead, each listed under
  "Left out":
  - `assignHouseIds(null)` (HouseRobber.AssignHouseIds);
  - a negative amount in `bottomUpChange`;
  - the stack overflows that zero coins or zero weights cause.

Modules:

| Module | Contents |
|---|---|
| `Wrappers`, `JsMath` | Option/Result, `Math.max`, JavaScript truthiness of a number |
| `Fibonacci` | `fib0`, `topDownFib`, `bottomUpFib` |
| `CoinChange` | `changeNonDP`, `topDownChange`, `bottomUpChange` |
| `CakeThief` | the cakes, `stealCakes` and its helpers, `assignIds`, `hashCakes`, `topDownSteal` |
| `Queue` | `Q` |
| `BinaryTree` | `BTNode`, `nextDir`, `insert`, the sample `house` |
| `HouseRobber` | `_oneHouse`, `_threeHouses`, `rob` with its optimality, breadth-first order, `assignHouseIds` |
| `RobberMemo` | `robDP` as written and with `robDP(null) = 0` |

## Model

| member | source | states |
|---|---|---|
| Fibonacci.Fib0 | dynamic-programming.js:22-25 | every value is at least 1 (the inputs below 2, negative ones included, are base cases), and fib0(n) >= n from n = 2 on |
| Fibonacci.TopDownFib | dynamic-programming.js:28-36 | returns fib0(n) from any memo whose entries all equal fib0 of their key; afterwards every entry still does, n is cached with the result, and no earlier entry changed |
| Fibonacci.JsAdd | dynamic-programming.js:49 | JavaScript `+` on table reads yields a number exactly when both operands are numbers (NaN and undefined propagate) |
| Fibonacci.BottomUpFibAsWritten | dynamic-programming.js:44-53 | the loop as written yields 1 only for n = 1, undefined for n <= 0 and NaN for every n >= 2 |
| Fibonacci.BottomUpFib | dynamic-programming.js:44-53 | the table with the guard on the loop index returns fib0(n) for every n >= 0 |
| CoinChange.ChangeNonDP | dynamic-programming.js:71-80 | exactly one way to make 0 and none to make a negative amount; with positive denominations the recursion terminates and the count is a natural number |
| CoinChange.ChangeSingleCoin | dynamic-programming.js:71-80 | with the single coin d there is one way when n is a non-negative multiple of d and none otherwise |
| CoinChange.ChangeSplitLast | dynamic-programming.js:65-69 | the with/without split of the key insight also holds for the last denomination: ways(xs+[d], n) = ways(xs, n) + ways(xs+[d], n-d) for n >= 1 |
| CoinChange.TopDownChange | dynamic-programming.js:84-96 | returns changeNonDP(ds, n) from a sound memo keyed by (denominations, amount); the memo stays sound and earlier entries are kept; for n > 0 with denominations the result is stored under (ds, n) |
| CoinChange.CellRecurrence | dynamic-programming.js:110-120 | the cell update `w + wo` equals changeNonDP on the prefix ds[..j+1], from the cell i - ds[j] of the same column and the cell to the left |
| CoinChange.ChangeTable | dynamic-programming.js:105-121 | the table has n+1 rows and one column per denomination, row 0 is all 1s, and cell (i, j) is the number of ways to make i from ds[0..j] |
| CoinChange.BottomUpChange | dynamic-programming.js:105-123 | the last cell equals changeNonDP(ds, n); with no denominations the read past the empty row gives undefined (None) |
| CakeThief.Cake.constructor | dynamic-programming.js:134-138 | a cake object holds the given weight and value and has no id yet |
| CakeThief.Fitting | dynamic-programming.js:153 | the filter keeps only cakes of `cs` with weight <= cap, and keeps every such cake; it is never longer than `cs` |
| CakeThief.FittingEmpty | dynamic-programming.js:153 | the filter of cakes with weight <= cap is empty exactly when every cake is heavier than cap |
| CakeThief.FittingSingle | dynamic-programming.js:153-154 | the filter holds one cake exactly when a single position holds a fitting cake, and it is then that cake |
| CakeThief.OnlyOneFits | dynamic-programming.js:152-155 | non-false exactly when one cake fits; the value is that cake's value when it fills the bag exactly and 0 (falsy) otherwise, from floor(weight/cap) |
| CakeThief.AllCakesLarger | dynamic-programming.js:156 | true exactly when every cake is heavier than the capacity |
| CakeThief.StealCakes | dynamic-programming.js:158-174 | with positive weights the recursion terminates; with non-negative values the result is non-negative |
| CakeThief.StealCakesNothing | dynamic-programming.js:158-164 | 0 when the capacity is at most 0, when there are no cakes, or when every cake is heavier than the capacity |
| CakeThief.StealCakesExample | dynamic-programming.js:134-140 | the three cake types with capacity 20 give 555 |
| CakeThief.StealCakesOverfills | dynamic-programming.js:165-170 | with capacity 3 the result is 160, the value of a cake of weight 7 that does not fit: the first cake is added without a fit check |
| CakeThief.AssignIds | dynamic-programming.js:177-181 | returns the same cakes in the same order and writes only ids; every cake's id is the last position holding it (a cake listed twice keeps the later one), so a cake listed once carries its own position |
| CakeThief.PositionIdsDistinct | dynamic-programming.js:177-181 | once the cakes are numbered by position, a cake listed once carries its own position |
| CakeThief.IdsOf | dynamic-programming.js:184-189 | the ids of the cakes, one per cake and in order |
| CakeThief.HashCakes | dynamic-programming.js:183-191 | when the first cake's id is falsy, numbers every cake by its last position; for no cakes or a truthy first id it writes nothing, and cakes already numbered by position are left as they are; the key is the ids afterwards in order with the capacity, or the empty key for no cakes |
| CakeThief.TopDownSteal | dynamic-programming.js:192-212 | returns stealCakes(cakes, capacity) for a tail of the original list and a memo of that computation, which stays sound and keeps its entries. If the list was numbered by position, or is the whole unnumbered list, it is numbered by position afterwards and the result is stored under the hash of the cakes; ids already numbered by position do not change |
| CakeThief.StealUncached | dynamic-programming.js:196-209 | the computation after a memo miss, the early exits or the two recursive calls through topDownSteal, agrees with stealCakes, keeps the memo sound and keeps ids numbered by position |
| CakeThief.StealEither | dynamic-programming.js:203-208 | the general case, starting with the call that takes the first cake again at capacity - weight, agrees with stealCakes, keeps the memo sound and keeps ids numbered by position |
| CakeThief.StealWithout | dynamic-programming.js:204-207 | given maxWith, the call on the remaining cakes and `Math.max` give stealCakes, with the same memo and id guarantees |
| Queue.Q.constructor | utils.js:31-33 | a new queue is empty |
| Queue.Q.EnQ | utils.js:34-36 | appends a present value at the back and leaves the queue unchanged for null/undefined |
| Queue.Q.DeQ | utils.js:37-40 | on a non-empty queue returns the oldest element and keeps the rest in order; on an empty one fails with 'Cannot deQ from an empty Q' and changes nothing |
| Queue.Q.NotMt | utils.js:41-43 | true exactly when the queue holds an element |
| BinaryTree.BTNode.constructor | utils.js:2-7 | a node with the given value and children, `lastDir` 'l' and no id; it owns itself and its children's nodes |
| BinaryTree.BTNode.NextDir | utils.js:9-12 | flips `lastDir` between 'l' and 'r' and returns the new value; nothing else changes |
| BinaryTree.Inserted | utils.js:14-19 | the value view of insert: fills `l`, then `r`, then recurses into the child `nextDir` names; the root keeps its value |
| BinaryTree.BTNode.Insert | utils.js:14-19 | adds one fresh node holding the value with no children, makes the tree the `Inserted` tree, and keeps every old node's value, id and existing children |
| BinaryTree.BTNode.InsertLeft | utils.js:18 | the recursive call into `l`: only the left subtree changes, to its `Inserted` tree |
| BinaryTree.BTNode.InsertRight | utils.js:18 | the recursive call into `r`: only the right subtree changes, to its `Inserted` tree |
| BinaryTree.InsertedSize | utils.js:14-19 | insert grows the tree by exactly one node |
| BinaryTree.InsertedValues | utils.js:14-19 | the new values are the old ones plus the inserted one |
| BinaryTree.InsertedLeftFilled | utils.js:16-17 | if no node had a right child without a left one, none has afterwards |
| BinaryTree.InsertedKeepsNodes | utils.js:14-19 | every node of the old tree is still at its path, with its value |
| BinaryTree.SampleHouseInserts | utils.js:22-28 | the six inserts give root 25, left 100 over 25 and 25, right 10 over 15 and 12 |
| BinaryTree.BuildHouse | utils.js:22-28 | the objects built by the six inserts form that tree, with no id on the root |
| HouseRobber.OneHouse | dynamic-programming.js:249 | true exactly for a tree of one house |
| HouseRobber.ThreeHouses | dynamic-programming.js:250-251 | a value exactly for a full three-house tree, and then the larger of the root and the two leaves together |
| HouseRobber.Rob | dynamic-programming.js:253-264 | returns a value exactly on full trees; a house with one child makes `h.l.l` or `h.r.l` throw |
| HouseRobber.RobPlan | dynamic-programming.js:253-264 | on a full tree some plan that robs no two adjacent houses takes exactly what rob returns |
| HouseRobber.RobIsUpperBound | dynamic-programming.js:236-241 | on a full tree with non-negative values no such plan takes more than rob |
| HouseRobber.RobIsOptimal | dynamic-programming.js:236-264 | rob is the maximum loot over all plans that rob no two adjacent houses (full tree, non-negative values) |
| HouseRobber.SampleHouseLoot | utils.js:22-28 | the sample house is perfect with non-negative values, and rob gives 127 on it |
| HouseRobber.LevelOrderFacts | dynamic-programming.js:280-291 | the breadth-first visit from the root lists every house once and nothing else, shallower houses first and left before right; its length is the number of houses |
| HouseRobber.VisitHouse | dynamic-programming.js:286-290 | one turn of the loop: the dequeued house, the next in level order, gets the next id and its present children join the back of the queue |
| HouseRobber.NumberLevels | dynamic-programming.js:281-291 | the loop numbers the houses 1, 2, ... in level order, writing only ids |
| HouseRobber.AssignHouseIds | dynamic-programming.js:279-292 | returns its argument; with an id already on the root nothing changes; otherwise every house carries its place in level order plus one; the tree's shape and values never change |
| RobberMemo.OneHouseAt | dynamic-programming.js:249 | _oneHouse read from the objects agrees with OneHouse on the tree they form |
| RobberMemo.ThreeHousesAt | dynamic-programming.js:250-251 | _threeHouses read from the objects agrees with ThreeHouses on the tree they form |
| RobberMemo.DPCompletesIsFull | dynamic-programming.js:294-308 | where robDP finishes the tree is full, so rob finishes too |
| RobberMemo.PerfectDPCompletes | dynamic-programming.js:294-308 | on a perfect tree robDP finishes exactly when no three-house subtree has _threeHouses equal to 0 |
| RobberMemo.MemoStore | dynamic-programming.js:306 | storing rob's value under a house's id keeps every truthy memo entry equal to rob on its house |
| RobberMemo.MemoStoreCompleted | dynamic-programming.js:306 | storing under a house where robDP finishes keeps every truthy entry on such a house |
| RobberMemo.RobDP | dynamic-programming.js:294-308 | numbers the tree on the first call; finishes exactly where DPCompletes holds, and then returns rob of the house; the memo stays sound; later calls change nothing on the heap |
| RobberMemo.RobNumbered | dynamic-programming.js:296-307 | after numbering: finishes exactly where DPCompletes holds and then returns rob of the house; a truthy memo entry is returned as is, otherwise the result is stored under the house's id; the memo stays sound and ids do not change |
| RobberMemo.RobBelow | dynamic-programming.js:301-305 | the general case finishes exactly when all six recursive calls do, and then equals rob |
| RobberMemo.RobPair | dynamic-programming.js:302-303 | robDP on the two children of a house, left first, stopping at the first throw; each value is rob of that child |
| RobberMemo.RobDPFixed | dynamic-programming.js:294-308 | with robDP(null) = 0, robDP finishes exactly on full trees and returns rob there; the memo stays sound |
| RobberMemo.RobNumberedFixed | dynamic-programming.js:296-307 | as RobNumbered, with robDP(null) = 0: finishes exactly on full subtrees, and the result is then stored under the house's id |
| RobberMemo.RobBelowFixed | dynamic-programming.js:301-305 | as RobBelow, with robDP(null) = 0: finishes exactly when the house's subtree is full |
| RobberMemo.RobPairFixed | dynamic-programming.js:302-303 | as RobPair, with robDP(null) = 0 |
| RobberMemo.RobSampleHouse | dynamic-programming.js:294-308 | robDP on the sample house with an empty memo returns 127, as rob does |
| RobberMemo.ZeroTripleAsWritten | dynamic-programming.js:250-251 | three houses worth 0: rob gives 0 but robDP throws |
| RobberMemo.ZeroTripleFixed | dynamic-programming.js:294-308 | the same three houses with robDP(null) = 0 give 0 |

## Left out

- Memo sharing: the memos are module-level objects shared by every
  top-level call in the source. Here each memo is a map passed in and
  returned, and the memo invariants say what a memo from earlier calls on
  the same data may hold. Mixing houses of different trees in one
  `robberMemo` is not modelled: their ids collide, because each tree is
  numbered from 1.
- Memo keys: `coinMemo` and `cakeMemo` use string keys. `ds.toString() + ';' + n`
  becomes the pair (denominations, amount), and the `hashCakes` string
  becomes `CakeKey` (the ids in order, then the capacity). The strings can
  collide, for example ids 1,12 against 11,2, and the structured keys
  cannot.
- JavaScript values: numbers are mathematical integers. There is no
  floating point, no overflow, and no NaN except in
  `BottomUpFibAsWritten`. Truthiness of memo reads is modelled as "present
  and non-zero".
- Queue.Q.EnQ: the source skips every falsy value. Here only null and
  undefined (`None`) are skipped, because the queue only ever holds house
  objects.
- BinaryTree.BTNode.constructor: it requires the given children to be valid
  trees that share no node. The source accepts any objects; `new BTNode`
  is only ever called with `null` children.
- BinaryTree.BTNode.Insert: the JavaScript `this[this.nextDir()].insert(val)`
  is split into `InsertLeft` and `InsertRight`, one per direction.
- BinaryTree.BTNode: the `id` property that the robber adds is a field, and
  0 stands for "not yet set". Both are falsy in JavaScript.
- HouseRobber.AssignHouseIds takes a non-null house. The `TypeError` of
  `assignHouseIds(null)` is modelled where it happens, in RobberMemo.RobDP.
- HouseRobber.AssignHouseIds: with an id already on the root nothing is
  renumbered. The model then requires the tree to be numbered already
  (RobberMemo.RobDP), so ids left over from elsewhere are not modelled.
- Thrown errors (the `TypeError` of a `null` read) are results
  (`None`). The partial memo a throwing `robDP` leaves behind is only
  stated to stay sound, not computed exactly.
- CakeThief.StealCakes is not claimed to be an optimal knapsack. It adds
  the first cake's value without checking that the cake fits, and
  `_onlyOneFits` returns 0 unless the single fitting cake fills the bag
  exactly. Both are modelled literally, with the worked example and the
  overfilling case proved.
- CoinChange.ChangeNonDP requires positive denominations, and so do the
  members built on it. With a zero or negative coin the source recurses
  until the stack overflows.
- CakeThief.StealCakes requires positive weights, and so do
  CakeThief.TopDownSteal, CakeThief.StealUncached, CakeThief.StealEither
  and CakeThief.StealWithout. With a cake of weight 0 the source recurses
  until the stack overflows.
- CakeThief.OnlyOneFits requires a positive capacity. `stealCakes` only
  calls it then; at capacity 0 the source's `Math.floor(weight/0)` is not
  an integer.
- CoinChange.BottomUpChange requires n >= 0. For n <= -2 the source's
  `new Array(n + 1)` throws a RangeError. For n = -1 it builds an empty
  table, and then `changeTable[0] = ...` succeeds but the return reads
  `changeTable[-1][ds.length - 1]` on undefined, a TypeError.
- Fibonacci.BottomUpFib: the corrected table starts from an empty table on
  each call. The source keeps `fibTable` between calls.
- Fibonacci.BottomUpFibAsWritten also starts from an empty `fibTable`,
  although the source shares it between calls. The result does not depend
  on earlier calls. The loop only ever writes indices >= 0, so for n <= 0
  the read at n - 1 is always undefined. For n >= 1 the loop writes indices
  0 .. n - 1 in order, each from the two indices below it. The value read
  at n - 1 therefore comes only from this call's writes and from indices
  -1 and -2, which stay undefined.
- Printing and the module exports of both files are not part of this
  model.

## Findings

| source | as written | input that shows it | evidently intended | confidence | as-written member | corrected member |
|---|---|---|---|---|---|---|
| dynamic-programming.js:45-53 | the base case tests `n < 2` instead of `i < 2`, so the loop reads `fibTable[-1]` and `fibTable[-2]`; the result is read at index n - 1 | n = 2 gives NaN (undefined + undefined), and n = 0 gives undefined | fib0(n), from a table indexed 0..n with the guard on the index | not executed | Fibonacci.BottomUpFibAsWritten | Fibonacci.BottomUpFib |
| dynamic-programming.js:294-308 | `robDP(null)` throws inside `assignHouseIds` (`h.id` on null, line 282), and the `h === null` branch at line 298 is dead; `_threeHouses` returns the falsy 0 for three houses worth 0, so the general case calls `robDP(h.l.l)` on null | a perfect tree of three houses all worth 0: rob gives 0, robDP throws a TypeError | robDP(null) = 0 as the dead branch says, so that robDP agrees with rob | not executed | RobberMemo.ZeroTripleAsWritten | RobberMemo.RobDPFixed |
