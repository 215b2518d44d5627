# Olist order feature builder, modelled in Dafny

This project models the feature builder of the Olist e-commerce analysis
package. `Order` turns the raw Olist tables into one row of features per
order:

- wait time and expected wait time in whole days;
- the delay beyond the estimate, clamped at zero;
- one-star and five-star review flags;
- the number of items, the number of distinct sellers, and the summed price
  and freight value;
- optionally, a coarse seller-to-customer distance (50 for the same state,
  500 otherwise).

The features are joined onto the wait-time table by left merges, and every
row with a missing value is then dropped. `Olist.get_data` is modelled too:
it keeps the `.csv` entries of a directory listing, derives a table name
from each file name by removing `olist_`, `_dataset.csv` and `.csv`, and
builds a dictionary in which the last file wins for a repeated name.

The model has these parts:

- Tables are sequences of immutable records (`records.dfy`).
- Nullable cells are `Option`, a NaN being `None`.
- Timestamps are integer seconds.
- The pandas operations the code relies on are defined once, generically, in
  `table_ops.dfy`: boolean-mask filter, `drop_duplicates`, one group of a
  `groupby`, the NaN-skipping `sum`, and the left `merge`.
- Each `Order` method is a function. `get_wait_time`, `get_review_score`,
  `get_distance_seller_customer` and `get_training_data` each have their own
  module (`wait_time.dfy`, `review_score.dfy`, `distance.dfy`,
  `training_data.dfy`). `get_number_items`, `get_number_sellers` and
  `get_price_and_freight` share `item_aggregates.dfy`.
- `data.py` is modelled in `data.dfy`.
- `end_to_end.dfy` works one complete order through `get_training_data`.

The pandas behaviours that matter here are modelled explicitly:

- `.dt.days` floors, so a negative interval of a few hours counts as -1
  day. Dafny's `/` with the positive divisor 86400 floors as well, and the
  model follows the code.
- A comparison with NaN is false. So a missing timestamp gives a delay of 0,
  not NaN, and a missing review score gives both flags 0.
- `nunique` skips NaN seller ids.
- `sum` skips NaN prices.
- A left merge keeps the left order and repeats a left row once per matching
  right row, in right order.
- `str.replace` removes non-overlapping occurrences from left to right.

Because every member is a pure function of its input tables, calling any
operation twice on the same tables gives the same result. Idempotence
therefore holds by construction and has no lemma of its own.

## Model

| member | source | states |
|---|---|---|
| TableOps.Filter | olist/order.py:24 | A boolean mask keeps only rows that satisfy the predicate, loses none of them and never grows the table. |
| TableOps.FilterCount | olist/order.py:24 | A kept row appears as many times as in the input; a dropped row appears zero times. |
| TableOps.FilterAppend | olist/order.py:24 | A mask keeps row order: masking a concatenation gives the masked parts, concatenated. |
| TableOps.FilterIndices | olist/order.py:24 | The masked rows are the input rows at some strictly increasing positions, so the mask reorders nothing. |
| TableOps.Dedup | olist/order.py:87 | `drop_duplicates` yields pairwise distinct rows with exactly the same set of values, and never more rows than its input. |
| TableOps.DedupIndices | olist/order.py:87 | `drop_duplicates` keeps the first occurrence of each value, in input order: the output rows sit at strictly increasing input positions, each holding a value not seen earlier. |
| TableOps.Matches | olist/order.py:60 | One `groupby` group holds exactly the rows carrying the key. A key that no row carries gives an empty group. |
| TableOps.MatchesAppend | olist/order.py:60 | A group keeps row order: the group of a concatenation is the groups of the parts, concatenated. |
| TableOps.MatchesCount | olist/order.py:60 | The size of a group is the number of occurrences of its key in the key column. |
| TableOps.MatchesUnique | olist/order.py:115-118 | When a right table is keyed uniquely, a key matches at most one of its rows. |
| TableOps.Lookup | olist/order.py:115-118 | Lookup finds a row with the key exactly when one exists, and the row it returns carries that key. |
| TableOps.LookupFirst | olist/order.py:115-118 | The row a lookup returns is the first row of the right table carrying the key: no earlier row has it. |
| TableOps.LookupUnique | olist/order.py:115-118 | Under unique keys, looking up a row's own key returns that row. |
| TableOps.LeftJoin | olist/order.py:91 | A left merge never has fewer rows than the left table, and every output row is a left row combined with a right row of the same key, or with nothing when no right row matches. That no left row is lost is stated by `TableOps.LeftJoinComplete`. |
| TableOps.LeftJoinUnique | olist/order.py:115-118 | A left merge against a uniquely keyed table has exactly one row per left row, in left order, each combined with the lookup of its key. |
| TableOps.LeftJoinComplete | olist/order.py:91 | A left merge drops nothing: every left row appears combined with each right row of its key, and a left row with no matching right row appears padded. |
| TableOps.LeftJoinSize | olist/order.py:91 | A left merge has exactly one output row per matching right row of each left row, and one for a left row with no match. |
| TableOps.LeftJoinKeeps | olist/order.py:114-121 | The columns a left merge takes from the left table hold exactly the left table's values: none is invented and none is lost. |
| TableOps.GroupedSumTotal | olist/order.py:77 | Per-group sums over keys that are distinct and cover every row add up to the sum over the whole table. |
| WaitTime.Days | olist/order.py:32-33 | A day count is missing exactly when either timestamp is missing. Otherwise it is the floor of the elapsed seconds over 86400. |
| WaitTime.Delay | olist/order.py:36-40 | The delay is never negative. It is the wait minus the expected wait when that is positive and 0 otherwise. A missing operand gives 0. |
| WaitTime.WaitRowOf | olist/order.py:27-42 | The row for an order carries its id and status, its two floored day counts, and a delay of `max(0, wait - expected)`, or 0 when either count is missing. |
| WaitTime.WaitRows | olist/order.py:27-42 | The per-row computation yields one wait-time row per order row, in order, each derived from its own order. |
| WaitTime.WaitTimes | olist/order.py:21-42 | With the filter on, the output holds exactly the rows of delivered orders, one per delivered order row. With it off, there is one row per order row, in input order. |
| WaitTime.DeliveredOnly | olist/order.py:23-24 | Under the default filter every wait-time row has status `delivered`. |
| WaitTime.WaitTimesAppend | olist/order.py:21-24 | Under either filter setting the output keeps input order: the table of concatenated order tables is the concatenation of their tables. |
| WaitTime.WaitTimesSingle | olist/order.py:21-24 | A single order yields its own row, except that the default filter yields nothing for an order that is not delivered. |
| WaitTime.DelayReflectsLateness | olist/order.py:32-40 | An order delivered no later than its estimate has delay 0. One delivered at least a full day after the estimate has a positive delay. |
| ReviewScore.Indicator | olist/order.py:51-52 | A flag is 0 or 1, and it is 1 exactly when the score is present and equal to the value. |
| ReviewScore.ReviewFlagsOf | olist/order.py:51-53 | The five-star flag is 1 exactly for score 5 and the one-star flag exactly for score 1. Both flags are 0 for a missing score, and they never add up to more than 1. |
| ReviewScore.ReviewScores | olist/order.py:50-53 | The review table has one row per review row, in order, with the same order ids. It is keyed uniquely exactly when the reviews are. |
| ReviewScore.ReviewOf | olist/order.py:115 | With one review per order, looking up a review's order id in the review table returns that review's flags and score. |
| ItemAggregates.GroupKeys | olist/order.py:60 | Every order id of the items table appears as a group key exactly once. |
| ItemAggregates.SellerSet | olist/order.py:68 | The set holds exactly the seller ids present in the rows. Missing ids are skipped. |
| ItemAggregates.SellerSetSize | olist/order.py:68 | There are never more distinct seller ids than rows. |
| ItemAggregates.NumberItems | olist/order.py:60 | There is one row per distinct order id and no other, keyed uniquely. Each count is the number of item rows of that order and is at least 1. |
| ItemAggregates.NumberSellers | olist/order.py:68-69 | There is one row per distinct order id, keyed uniquely. Each count is the number of distinct non-null seller ids among that order's items. |
| ItemAggregates.SellersAtMostItems | olist/order.py:60-69 | The seller and item tables line up row by row, and the number of sellers of an order is between 0 and its number of items. |
| ItemAggregates.PriceAndFreight | olist/order.py:77 | There is one row per distinct order id, keyed uniquely. Its price and freight are the NaN-skipping sums over that order's item rows. |
| ItemAggregates.ItemCountOf | olist/order.py:116 | Looking up an order that has items in the count table returns the size of its item group. |
| ItemAggregates.SellerCountOf | olist/order.py:117 | Looking up an order that has items in the seller table returns its number of distinct non-null seller ids. |
| ItemAggregates.PriceFreightOf | olist/order.py:118 | Looking up an order that has items in the sum table returns the NaN-skipping sums of its prices and freight values. |
| ItemAggregates.PriceAndFreightTotals | olist/order.py:60-77 | Summed over all orders, the per-order prices, freight values and item counts equal the totals over all item rows. |
| Distance.SellerPairs | olist/order.py:87 | The pairs are distinct, and they are exactly the `(order_id, seller_id)` pairs of the item rows. |
| Distance.SellerPairsOrder | olist/order.py:87 | The pairs come in item order: each sits at the first item row carrying it, at increasing positions. This fixes the row order of the distance table. |
| Distance.DistanceOf | olist/order.py:102-104 | The distance is 50 or 500. It is 50 exactly when both states are present and equal, so a missing state gives 500. |
| Distance.Links | olist/order.py:87-99 | After the three merges, the `(order_id, seller_id)` pairs present are exactly the pairs of the item rows, so no pair is lost or invented, and there is at least one row per distinct pair. |
| Distance.DistanceSellerCustomer | olist/order.py:80-105 | There is one output row per merged row, at the same position, carrying its order id and its distance. Every distance is 50 or 500, and the order ids are exactly those of the items table. |
| Distance.EveryPairHasDistance | olist/order.py:87-105 | Every `(order_id, seller_id)` pair of the items table has a distance row for its order, at a position whose merged row is that pair. |
| Distance.LinksOrderIds | olist/order.py:87-99 | The order ids after the three merges are exactly those of the items table. |
| Distance.DistanceUnique | olist/order.py:87-104 | When orders, sellers and customers are keyed uniquely, there is exactly one row per pair, in order. Its distance is 50 exactly when the pair's seller and the order's customer exist and share a present state. |
| Distance.LinkAgreesWithTables | olist/order.py:89-104 | For one pair under unique keys, the chained lookups give distance 50 exactly when seller and customer share a present state. |
| TrainingData.Anchor | olist/order.py:114 | The merge starts from the wait-time table: row `i` carries wait-time row `i`, and no feature column is filled before the first merge. |
| TrainingData.JoinReviews | olist/order.py:115 | The wait-time columns keep exactly their values. The two review flags and the review score are filled only for an order that has a review. When reviews are unique per order, row `i` is input row `i` with the review of its order, or padded when it has none. |
| TrainingData.JoinItemCounts | olist/order.py:116 | The earlier columns keep exactly their values. An item count is filled only for an order that has items. Against a uniquely keyed count table, which `NumberItems` always is, row `i` is input row `i` with the count of its order, or padded. |
| TrainingData.JoinSellerCounts | olist/order.py:117 | The earlier columns keep exactly their values. Against a uniquely keyed count table, which `NumberSellers` always is, row `i` is input row `i` with the seller count of its order, or padded. |
| TrainingData.JoinPriceFreight | olist/order.py:118 | The earlier columns keep exactly their values: ignoring price and freight, the output rows and the input rows form the same set, so the seller count is kept too. Against a uniquely keyed sum table, which `PriceAndFreight` always is, row `i` is input row `i` with the sums of its order, or padded. |
| TrainingData.JoinDistances | olist/order.py:120-121 | The earlier columns keep exactly their values: ignoring the distance, the output rows and the input rows form the same set. A filled distance is the distance of a distance row of the same order. Every row appears with each distance row of its order, or padded when its order has none. The row count is the sum over rows of that number of partners, so an order with several seller pairs is repeated. |
| TrainingData.Merged | olist/order.py:114-121 | Before `dropna`, every wait-time row is still present, and there are at least as many rows as in the wait-time table. The wait-time, review-flag and item-count columns hold exactly the values the corresponding merges produced. With the distance join, every distance is missing, 50 or 500. |
| TrainingData.TrainingTable | olist/order.py:107-123 | `dropna` keeps exactly the merged rows with no missing value and never adds a row. The distance column is checked only when it was requested. |
| TrainingData.TrainingCount | olist/order.py:123 | Each complete merged row appears as many times as in the merged frame; an incomplete one appears zero times. |
| TrainingData.TrainingOrder | olist/order.py:123 | `dropna` keeps the merged frame's row order: the training rows sit at increasing positions of the merged frame. |
| TrainingData.CompleteColumns | olist/order.py:120-123 | The distance column decides completeness only when it was requested: complete with it means complete without it plus a present distance, and completeness without it ignores that column. |
| TrainingData.TrainingAnchored | olist/order.py:114-123 | Every training row's wait-time columns are a row of `get_wait_time`. With the default filter, every training row is a delivered order. |
| TrainingData.MissingReviewDropped | olist/order.py:115-123 | An order without any review row never appears in the training table. |
| TrainingData.MissingItemsDropped | olist/order.py:116-123 | An order without any item row never appears in the training table. |
| TrainingData.TrainingKeeps | olist/order.py:107-123 | Without the distance join, and with one review per order, an order with a status (`delivered` when `is_delivered` is set), its three dates, a scored review and at least one item survives `dropna`. Its row carries its own wait-time row, review score, item count, distinct-seller count, price sum and freight sum. |
| TrainingData.TrainingRowBound | olist/order.py:114-123 | Without the distance join, and with at most one review per order, the training table has no more rows than the wait-time table. |
| EndToEnd.ExampleDistance | olist/order.py:80-105 | One order with one seller in the customer's state has the single distance 50. |
| EndToEnd.EndToEndExample | olist/order.py:107-123 | One delivered, reviewed order yields exactly one training row: wait 4, expected 9, delay 0, five-star 1, one-star 0, score 5, one item, one seller, price 100, freight 10, distance 50. |
| Data.CsvFiles | olist/data.py:11 | The files kept are exactly the listing entries that end in `.csv`, and there are no more of them than listing entries. |
| Data.CsvFilesCount | olist/data.py:11 | A `.csv` entry is kept as many times as it is listed; any other entry is kept zero times. |
| Data.CsvFilesAppend | olist/data.py:11 | The filter keeps directory order: the `.csv` files of a concatenated listing are those of its parts, concatenated. |
| Data.CsvFilesSingle | olist/data.py:11 | A single entry is kept exactly when it ends in `.csv`. |
| Data.RemoveAll | olist/data.py:14 | Removing every occurrence of a pattern never lengthens a name. |
| Data.RemoveAllUnchanged | olist/data.py:14 | Removing a pattern leaves a name unchanged exactly when the pattern does not occur in it. |
| Data.Key | olist/data.py:14 | A derived table name is never longer than its file name. |
| Data.RemoveAllSkip | olist/data.py:14 | Text that lacks the pattern's first character is kept as is at the front of the result. |
| Data.RemoveAllAfter | olist/data.py:14 | Text before the first possible start of the pattern is kept as is, and the occurrence that follows it is removed. |
| Data.KeyNames | olist/data.py:14 | Each file has one derived name, paired with it by position. |
| Data.GetData | olist/data.py:11-19 | The dictionary's keys are exactly the derived names of the `.csv` files. Each key maps to the last `.csv` file with that name, by position both among the `.csv` files and in the directory listing itself. |
| Data.LastCsvInListing | olist/data.py:11-19 | The last `.csv` file with a name, counted among the `.csv` files, is also the last such entry of the directory listing. |
| Data.KeyOfOlistName | olist/data.py:14 | `olist_<name>_dataset.csv` is stored under `<name>` when the name has no `_` and no `.`, and lacks `l` or `o`. |
| Data.KeyOfOlistPair | olist/data.py:14 | `olist_<a>_<b>_dataset.csv` is stored under `<a>_<b>` when neither part has `l`, `_` or `.`, and the second part is not empty. |
| Data.OrdersKey | olist/data.py:14 | The orders file is stored under `orders`. |
| Data.OrderItemsKey | olist/data.py:14 | The order-items file is stored under `order_items`. |
| Data.OrderReviewsKey | olist/data.py:14 | The order-reviews file is stored under `order_reviews`. |
| Data.SellersKey | olist/data.py:14 | The sellers file is stored under `sellers`, although the name contains an `l`. |

## Left out

- File system and CSV parsing: `os.listdir`, the path arithmetic and `pd.read_csv` are left out. The listing is a parameter, and a table's dictionary value is its file name.
- `Order.__init__`: the tables are passed to each function directly. The `KeyError` raised when `get_data` lacks a table therefore cannot arise in the model.
- `Olist.ping` and `haversine_distance`: the first only prints, and the second is imported but never called by the modelled code.
- Date parsing with `pd.to_datetime`: timestamps arrive as integer seconds, and `None` stands for a missing date (`NaT`). An unparseable date makes `pd.to_datetime` raise, because it is called with the default `errors='raise'`. The model drops that error path.
- Floating point: prices and freight values are integers (for example, cents), so rounding is not modelled.
- NaN keys: order ids, seller ids of the sellers table, and customer ids are non-null strings. pandas' grouping, which drops NaN keys, and its merging, which matches NaN to NaN, are therefore not modelled.
- Output column dtypes: an integer column becomes float once it holds NaN, and this is not modelled.
- Group output order: `groupby` sorts the order ids, while the model emits them in first-occurrence order. This does not affect the training table, because its left merges keep the order of the wait-time table and the group tables are keyed uniquely.
- Seller and customer cities: the distance frame carries them, but they never reach its output, so the model leaves them out.
- Data.RemoveAll: requires a non-empty pattern, because the code only removes the three non-empty constants.
- Data.Key: states only the length bound for an arbitrary name. The exact derived name is proved for the `olist_<name>_dataset.csv` shape by `Data.KeyOfOlistName` and `Data.KeyOfOlistPair`, and for the orders, order-items, order-reviews and sellers files by name.
- Data.KeyOfOlistName: covers only names without `_` or `.` that lack `l` or `o`. Names with two or more underscores, such as `product_category_name_translation`, are not worked through.
- Distance.DistanceUnique: proves the exact one-row-per-pair result only when orders, sellers and customers are keyed uniquely. Without that, only the general bounds of `Distance.DistanceSellerCustomer` hold.
- TrainingData.TrainingRowBound: no row bound is stated with the distance join, because there the code repeats an order once per seller pair.
- TrainingData.JoinSellerCounts: states no "filled only when matched" property for the seller count. The review and item-count joins already decide which orders survive `dropna`.
- TableOps.LeftJoin: its own contract states only that the output never has fewer rows than the left table and where each output row comes from; it does not itself say that no left row is lost. Completeness and the exact row count are stated by `TableOps.LeftJoinComplete` and `TableOps.LeftJoinSize`, to keep each proof small.
- TrainingData.JoinDistances: states the total row count and that every (row, partner) combination is present, but not how many times each single row is repeated.
- TrainingData.TrainingKeeps: covers only the call without the distance join and with one review per order. With repeated reviews or seller pairs, only the membership facts of `TrainingData.Merged` and `TrainingData.TrainingTable` hold.
