# Weekly inventory ledger: a Dafny model

`Inventory_MGT_System_week.py` keeps a small ledger in a pandas data frame.
Each product has three rows: Supply, Demand and Inventory. Each row holds one
integer per week column, `Week 0` … `Week N-1`. Alongside the table the script
keeps a unit cost per product (`material_cost`) and a warning threshold. This
project models the ledger logic behind the tkinter window and proves what it
does:

- **the inventory recurrence** (`calculate_inventory`). Inventory in week 0 is
  supply minus demand. Every later week carries the previous balance forward
  and adds that week's supply minus its demand. A product lacking a Supply or
  Demand row is skipped;
- **the negative tag** (`update_table`). An Inventory row is shown as
  "negative" when any week is below zero, and as "positive" otherwise;
- **the valuation series** (`plot_inventory_value`). For each week it sums
  the Inventory quantity times the unit cost over the distinct products;
- **the four handlers** (`modify_data`, `add_product`, `delete_product`,
  `modify_threshold`). Each is a transition on the state that either reports
  an error and changes nothing, or applies its change and recomputes;
- **the start-up state**. The seeded table's Inventory rows do not follow
  the recurrence, and the first `refresh_data()` rewrites them.

The table is a sequence of rows, not a keyed map, because the code behaves
that way. Nothing stops a product from owning two rows of the same item. Every
lookup (`.values[0]`) reads the first matching row. Every write
(`df.loc[mask, col] = v`) hits all matching rows.

Files and modules, in dependency order:

| file | module | contents |
|---|---|---|
| recurrence.dfy | `Recurrence` | net flow, the recurrence `Follows`, its unique solution `Balance` |
| ledger.dfy | `Ledger` | optional values, rows, tables, first-match lookup, `unique()`, masked writes, row filtering |
| calculate.dfy | `Calculate` | `Recompute` (what `calculate_inventory` returns), its laws, and the loop itself as a method |
| display.dfy | `Display` | the tag rule of `update_table` |
| valuation.dfy | `Valuation` | the weekly value series |
| operations.dfy | `Operations` | program state, parsed inputs, the four handlers |
| properties.dfy | `Properties` | multi-step laws: the invariant every handler keeps, add/delete against valuation |
| scenarios.dfy | `Scenarios` | the seeded table and the state after the first refresh |

Design decisions that follow the code:

- `modify_data` for a product name with no rows still stores a unit cost for
  that name. The masked writes change nothing, but `material_cost[product]`
  is assigned anyway. The model does the same (`Properties.ModifyDataUnlisted`).
- `add_product` has no duplicate-name check. A second set of three zero rows
  is appended (`Properties.AddProductDuplicate`).
- No handler checks that a unit cost is non-negative.
- The warning threshold is only drawn as a line. Nothing compares a value
  against it, so the model has no "breached" predicate.
- `modify_data` calls `calculate_inventory` and then `refresh_data`, so it
  recomputes twice. Recomputing is idempotent, so this equals one recompute
  (`Properties.ModifyDataRecomputesOnce`).
- A Complete product is one with both a Supply and a Demand row. Take such a
  product that also has an Inventory row. In week 0 every one of its
  Inventory rows gets supply minus demand. In every later week the first
  Inventory row's previous value is carried forward. Each of its Inventory
  rows therefore ends up as the balance of its first Supply and first Demand
  rows.
- Take a Complete product with no Inventory row. The week-0 write hits no row,
  and the later reads raise `IndexError` and are skipped. Nothing changes.

## Model

| member | source | states |
|---|---|---|
| Recurrence.Balance | Inventory_MGT_System_week.py:54-59 | the balance row satisfies the recurrence: week 0 is supply minus demand, each later week is the previous week plus supply minus demand |
| Recurrence.FollowsIffBalance | Inventory_MGT_System_week.py:54-59 | a row follows the recurrence if and only if it equals the balance row: the recurrence has exactly one solution |
| Recurrence.BalanceIsNetFlow | Inventory_MGT_System_week.py:54-59 | closed form: week k of the balance is the sum of supply minus demand over weeks 0..k |
| Recurrence.BalanceOfZeros | Inventory_MGT_System_week.py:200-202 | all-zero supply and demand give an all-zero inventory row |
| Ledger.First | Inventory_MGT_System_week.py:51-52 | the row `.values[0]` reads is the earliest matching row; None exactly when no row matches (the IndexError case) |
| Ledger.Products | Inventory_MGT_System_week.py:48 | `unique()` lists each product that has a row exactly once, and nothing else |
| Ledger.SetCells | Inventory_MGT_System_week.py:131-132 | a masked write sets the chosen week in every matching row and leaves every other cell, and every product and item, unchanged |
| Ledger.Without | Inventory_MGT_System_week.py:156 | the filtered table holds exactly the rows of other products, and no more rows than before |
| Ledger.WithoutAppend | Inventory_MGT_System_week.py:156 | filtering distributes over concatenation, so kept rows stay in their original order |
| Ledger.FirstOfWithout | Inventory_MGT_System_week.py:156 | after a product's rows are dropped, another product's lookups succeed exactly when they did before and read the same row |
| Ledger.FirstOfSameShape | Inventory_MGT_System_week.py:51-52 | lookups depend only on products and items, never on week values |
| Calculate.Recompute | Inventory_MGT_System_week.py:41-65 | recomputing keeps the width, the row count, every product and item, every Supply and Demand row, and every row of a product lacking Supply or Demand |
| Calculate.CalculateInventory | Inventory_MGT_System_week.py:41-65 | the week-outer, product-inner loop with its reads and masked writes returns exactly the recomputed table |
| Calculate.UpdateWeek | Inventory_MGT_System_week.py:44-64 | one pass of the product loop finalises one more week column and leaves later columns untouched |
| Calculate.UpdateProductWeek | Inventory_MGT_System_week.py:49-64 | one product's step either writes its recurrence value into every Inventory row of that product or is skipped on IndexError; either way the step leaves the table consistent with the weeks finished so far |
| Calculate.RecomputeConsistent | Inventory_MGT_System_week.py:54-62 | after recomputing, every Inventory row of a product with Supply and Demand rows follows the recurrence from that product's first Supply and Demand rows |
| Calculate.RecomputeClosedForm | Inventory_MGT_System_week.py:54-59 | week k of a recomputed Inventory row is the product's net flow over weeks 0..k |
| Calculate.RecomputeUnique | Inventory_MGT_System_week.py:54-62 | any row that follows the recurrence from the product's Supply and Demand rows is exactly what recomputing writes |
| Calculate.ConsistentIffFixpoint | Inventory_MGT_System_week.py:41-65 | a table is consistent if and only if recomputing leaves it unchanged |
| Calculate.RecomputeIdempotent | Inventory_MGT_System_week.py:41-65 | recomputing twice gives the same table as recomputing once |
| Calculate.RecomputeIsolated | Inventory_MGT_System_week.py:48-62 | for two tables with the same layout of products and items, a product whose rows agree gets the same recomputed rows at the same positions |
| Calculate.RecomputeOnly | Inventory_MGT_System_week.py:48-62 | with no layout condition, recomputing the whole table and then keeping one product's rows equals recomputing that product's rows on their own |
| Calculate.RecomputeLocal | Inventory_MGT_System_week.py:48-62 | two tables holding the same rows of a product, with other products' rows anywhere and in any number, recompute that product's rows alike |
| Calculate.WithoutConsistent | Inventory_MGT_System_week.py:156 | dropping one product's rows keeps a consistent table consistent |
| Calculate.RecomputeAppend | Inventory_MGT_System_week.py:206 | appended rows leave the recomputed old rows unchanged, provided each appended product is new or already complete |
| Calculate.AppendFreshConsistent | Inventory_MGT_System_week.py:206 | appending a consistent block of new products keeps the table consistent |
| Display.HasNegative | Inventory_MGT_System_week.py:79 | `any(value < 0 …)` holds if and only if some week value is negative |
| Display.RowTag | Inventory_MGT_System_week.py:78-83 | Supply and Demand rows get no tag. An Inventory row is tagged negative if and only if some value is below 0, and positive if and only if all values are at least 0 |
| Display.UpdateTable | Inventory_MGT_System_week.py:70-83 | the rows shown are the recomputed rows in table order; exactly the Inventory rows carry a tag, each computed from that row's own values |
| Display.TagOf | Inventory_MGT_System_week.py:78-83 | an Inventory row whose recomputed values are known is tagged by whether any of them is negative |
| Display.NegativeIffShortfall | Inventory_MGT_System_week.py:78-83 | a complete product's Inventory row is shown negative if and only if cumulative supply minus demand drops below zero in some week |
| Valuation.ValueSeries | Inventory_MGT_System_week.py:87-96 | the series exists if and only if every product has an Inventory row and a unit cost, or there are no week columns to loop over. Otherwise the loop raises. It has one entry per week column. With no rows every entry is 0 |
| Valuation.ValueSeriesAt | Inventory_MGT_System_week.py:91-96 | in a priced table, entry w of the series equals the total of Inventory quantity times unit cost for week w, summed over the table's products in any order that lists each product exactly once, whatever order `unique()` returns |
| Valuation.WeekValueAppend | Inventory_MGT_System_week.py:92-95 | the running total over two lists of products is the sum of their totals |
| Valuation.WeekValueOrderFree | Inventory_MGT_System_week.py:93-95 | any two duplicate-free listings of the same products give the same weekly total, so the order `unique()` returns does not matter |
| Valuation.Sub | Inventory_MGT_System_week.py:93-95 | a weekly total splits into one product's holding plus the total of the others |
| Operations.Refresh | Inventory_MGT_System_week.py:216-219 | refreshing leaves a consistent table of the same width and shape, keeps every Supply and Demand row, and changes neither costs nor threshold |
| Operations.EditWeek | Inventory_MGT_System_week.py:131-132 | the two writes of `modify_data` keep the table rectangular and its shape unchanged |
| Operations.ModifyData | Inventory_MGT_System_week.py:120-138 | succeeds if and only if supply, demand and cost all parse. On failure the state is unchanged and the error is InvalidNumbers. On success the chosen week of every matching Supply and Demand row holds the new values, the product's cost is set, the threshold is kept, no other Supply or Demand cell changes, and the table is consistent |
| Operations.ZeroRows | Inventory_MGT_System_week.py:200-202 | a new product gets three rows of the table's width |
| Operations.Grow | Inventory_MGT_System_week.py:205-206 | appending the three zero rows keeps the table rectangular and adds exactly three rows |
| Operations.AddProduct | Inventory_MGT_System_week.py:191-214 | succeeds if and only if the name is non-empty and the cost parses. An empty name or cost reports MissingInput and an unparsable cost reports InvalidCost, both leaving the state unchanged. On success the old rows keep their positions, products and items, followed by three appended rows: all-zero Supply and Demand rows, then an Inventory row of the new name. Every old Supply and Demand row is unchanged. The cost is set, the threshold is kept, and the table is consistent |
| Operations.Shrink | Inventory_MGT_System_week.py:156 | the filtered table is rectangular and holds no row of the deleted product |
| Operations.DeleteProduct | Inventory_MGT_System_week.py:149-164 | succeeds if and only if a name is selected and has a unit cost. An empty selection reports NoSelection and an unknown name reports NotFound, both leaving the state unchanged. On success the cost entry and every row of the product are gone, other rows keep their order, the kept Supply and Demand rows are unchanged, and the table is consistent |
| Operations.ModifyThreshold | Inventory_MGT_System_week.py:174-184 | succeeds if and only if the entry parses as an integer. On success it becomes the threshold, and costs, width, shape and every Supply and Demand row are kept. On failure the state is unchanged and the error is InvalidThreshold |
| Properties.ModifyDataRecomputesOnce | Inventory_MGT_System_week.py:131-141 | the second recompute from `refresh_data` changes nothing: the result is the edited table recomputed once |
| Properties.ModifyDataIsolated | Inventory_MGT_System_week.py:131-138 | on a consistent table an edit to one product leaves every row of every other product exactly as it was |
| Properties.ModifyDataUnlisted | Inventory_MGT_System_week.py:131-135 | for a name with no rows the table is only recomputed, yet the cost map gains that name |
| Properties.AddProductFresh | Inventory_MGT_System_week.py:200-208 | on a consistent table, adding a new name keeps every old row unchanged and appends exactly the three zero rows |
| Properties.AddProductDuplicate | Inventory_MGT_System_week.py:191-208 | with no duplicate check, re-adding an existing name keeps the old rows, and the new Inventory row repeats the existing product's balance (lookups read the first rows) |
| Properties.DeleteProductKeepsOthers | Inventory_MGT_System_week.py:151-158 | on a consistent table, deleting leaves exactly the other products' rows, in their original order and unchanged |
| Properties.ModifyThresholdKeepsTable | Inventory_MGT_System_week.py:175-180 | on a consistent table, changing the threshold changes nothing else |
| Properties.DeleteThenAdd | Inventory_MGT_System_week.py:149-214 | deleting a product and adding it back erases its history: only three zero rows remain for it, at the end |
| Properties.Apply | Inventory_MGT_System_week.py:115-214 | every handler keeps the table rectangular and its width, and leaves the state unchanged when it reports an error |
| Properties.ShapeRegistered | Inventory_MGT_System_week.py:131-132 | rewriting cell values and adding costs keeps every product fully registered |
| Properties.WithoutRegistered | Inventory_MGT_System_week.py:153-156 | deleting a product and its cost keeps every remaining product with a cost and all three rows |
| Properties.GrowRegistered | Inventory_MGT_System_week.py:197-206 | adding a name's cost and three rows keeps every product with a cost and all three rows |
| Properties.ApplyKeepsGood | Inventory_MGT_System_week.py:115-214 | each handler maps a good state (rectangular, consistent, every product with a cost and all three rows) to a good state |
| Properties.RunKeepsGood | Inventory_MGT_System_week.py:115-214 | any sequence of button presses from a good state ends in a good state |
| Properties.GoodIsPriced | Inventory_MGT_System_week.py:87-96 | in a good state the valuation loop never raises |
| Properties.AddProductKeepsValue | Inventory_MGT_System_week.py:191-208 | adding a product with no rows yet leaves the plotted value series unchanged |
| Properties.DeleteProductValue | Inventory_MGT_System_week.py:149-158 | deleting a listed product lowers every week's plotted value by exactly that product's holding in that week |
| Scenarios.SeedTable | Inventory_MGT_System_week.py:15-36 | the seeded data frame is rectangular: every row has one value per week column |
| Scenarios.Seed | Inventory_MGT_System_week.py:15-39 | the start-up state has every product with a unit cost and all three rows |
| Scenarios.Startup | Inventory_MGT_System_week.py:340 | the state after the first `refresh_data()` is good |
| Scenarios.SeedIsInconsistent | Inventory_MGT_System_week.py:18-26 | the seeded Inventory values break the recurrence (Lobster week 0 is 5, not 25 - 10 = 15), so the first refresh changes the table |
| Scenarios.StartupLobster | Inventory_MGT_System_week.py:340 | after the first refresh Lobster's Inventory row is 15, 12, 11, 7, 10, 8, 14, 14, 14 |
| Scenarios.StartupSalmon | Inventory_MGT_System_week.py:340 | after the first refresh Salmon's Inventory row is 20, 25, 55, 25, 29, 22, 2, 4, 4 |
| Scenarios.StartupShrimp | Inventory_MGT_System_week.py:340 | after the first refresh Shrimp's Inventory row is -27, 5, 3, 3, 1, -1, -12, -13, -15 |
| Scenarios.StartupShrimpNegative | Inventory_MGT_System_week.py:340 | at start-up the table shows Shrimp's Inventory row as negative |
| Scenarios.RowsRecomputed | Inventory_MGT_System_week.py:54-59 | in a table listed product by product with distinct names, each product's Inventory row is recomputed to its balance |

## Left out

- The tkinter window, widgets, comboboxes and message boxes are user interface only. Each handler's message box becomes the `Error` value of its outcome.
- matplotlib drawing, including the threshold line, is rendering. Only the numeric series is modelled.
- PNG and Excel export through file dialogs is file I/O.
- `int()` and `float()` parsing is abstracted as a `Field`: blank, malformed, or parsed. Unit costs are exact `real`s, so floating-point rounding, `nan` and `inf` are not modelled.
- The chosen week in `modify_data` is a column index below the table width (`requires week < width`). In pandas an unknown week label would add a new column; that quirk is not modelled.
- `refresh_product_list` only refills comboboxes. The list it shows is `Ledger.Products`.
- Valuation.ValueSeries: no lemma computes the seeded totals. The series is characterised by its laws (order independence, add and delete) instead.
- The week cells are pandas `int64`. The recurrence's sums wrap around on overflow, and `int()` accepts values outside 64 bits. The model uses unbounded integers, so it does not model the wrap-around or values that do not fit in `int64`.
- `refresh_data` also runs the valuation loop. That loop can raise after `modify_data`, `add_product`, `delete_product` or `modify_threshold` has already changed the table, the costs or the threshold; the window then shows no success message. An `Outcome` with no error does not model that late failure. From start-up it cannot happen: `Scenarios.Startup` is good, `Properties.RunKeepsGood` keeps every state good, and `Properties.GoodIsPriced` shows the loop never raises in a good state.
- Ledger.Products: its contract states membership and absence of duplicates, not first-appearance order. No property of the model depends on that order (`Valuation.WeekValueOrderFree`).
