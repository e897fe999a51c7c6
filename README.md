# ecr-insights in Dafny

`ecr-insights` is a command-line report on an AWS Elastic Container Registry
account. It lists every repository (`load_all_repositories`) and every image of
each repository (`load_all_images`). Both listings follow the registry's
continuation tokens page by page, asking for 1000 results per page. The program
sorts each repository's images by push time, newest first. It then builds a row
per repository: its name, the size of the newest image, and the number of
images. It prices each row as if every hosted image were as large as the newest
one, at $0.10 per GiB-month, and adds the rows' costs into a total.

The model has five modules:

- `Wrappers`: `Option` and `Result`.
- `Pagination`: the token-driven listing both loaders share. The registry is a
  *script* of responses, where the k-th request sent is answered by the k-th
  response. `Load` is the recursive listing. `FirstFinal` is the index of the
  response that stops it: the first failure, or the first page without a
  continuation token.
- `Ranking`: the newest-first order of `sort_by`, which is stable, and the
  image whose size a row reports. `NewestFirst` is a reference insertion order.
  Lemmas prove it is a permutation, is non-increasing in push time and is
  stable, and that any ordering with those three properties equals it.
  `SortNewestFirst` sorts an array in place and is proved to produce exactly
  `NewestFirst`.
- `Cost`: `Repo::monthly_cost` and the total that `main` folds over the rows.
- `Insights`: `load_all_images`, `load_all_repositories` and `repos`, including
  the requests each loader sends and the `try_fold` over repositories that stops
  at the first failed image listing.

The model follows `src/main.rs`. The program has no cut-off date, no cost cap,
no compression factor, no CSV output mode and no sorting of report rows, so
none of these is modelled.

## Model

| member | source | states |
|---|---|---|
| Pagination.FirstFinal | src/main.rs:40-51 | The listing stops at the first response that failed or has no continuation token: that response exists, and every earlier one succeeded and carries a token. |
| Pagination.Load | src/main.rs:28-52 | One request per response up to and including the stopping one. The first request carries the caller's token and each later one the previous response's token. A failed stopping response makes the whole load that failure. Otherwise the result is every requested page's items, concatenated in request order, with a missing item list counting as empty. |
| Pagination.FlattenAppend | src/main.rs:42-43 | Joining the items of two runs of pages equals joining each run and appending the results, as `images.append` does. |
| Pagination.UnrequestedResponsesIgnored | src/main.rs:41-51 | Responses after the stopping one are never requested: dropping them leaves the load unchanged. |
| Pagination.AbsentItemsCountAsEmpty | src/main.rs:42-50 | A page whose item list is absent loads exactly like one with an empty item list (`unwrap_or_default`). |
| Pagination.FailureAborts | src/main.rs:33-47 | If any requested page fails, the load's result is that page's error (the `?` on `sync()` and on the recursive call). |
| Pagination.SuccessUnlessRequestFailed | src/main.rs:40-51 | If every requested page succeeds, the load succeeds. |
| Pagination.SameLoad | src/main.rs:28-52 | Two scripts that stop at the same index, pass the same tokens and end alike give the same load: nothing else about a response matters. |
| Insights.LoadAllImages | src/main.rs:28-52 | Every image request names the repository and asks for 1000 results. The first carries no token and each later one the previous response's token. There is one request per page read, and the outcome is the listing's. |
| Insights.LoadAllRepositories | src/main.rs:54-72 | Every repository request asks for 1000 results. The first carries no token and each later one the previous response's token. There is one request per page read, and the outcome is the listing's. |
| Insights.Summarize | src/main.rs:80-93 | The row has the repository's name, a count equal to the number of images, and the size of the image that sorts first. That image is the earliest-listed one among those with the latest push time. The size is 0 when it is missing or when there are no images. |
| Insights.SummarizeRepository | src/main.rs:78-93 | One repository: a missing name becomes the empty string, its image listing's failure is the result, and otherwise its row is. |
| Insights.EmptyRepositoryCostsNothing | src/main.rs:85-93 | A repository without images gets size 0, count 0 and cost 0. |
| Insights.FirstFailureUnique | src/main.rs:77-95 | Exactly one repository is the first whose image listing fails. |
| Insights.NoFirstFailure | src/main.rs:77-95 | When every image listing succeeds, no repository is the first to fail. |
| Insights.SummarizesEachExtend | src/main.rs:85-94 | Pushing the next repository's row keeps the rows matched one-to-one with the repositories, in order. |
| Insights.SummarizeAll | src/main.rs:75-95 | The fold fails if and only if some repository's image listing fails, and it fails with the first such failure. Otherwise it returns one row per repository, in listing order, each that repository's row. |
| Insights.Repos | src/main.rs:74-96 | A failed repository listing is the result. Otherwise `repos` behaves as the fold over the listed repositories. |
| Ranking.SortNewestFirst | src/main.rs:80-84 | The in-place sort leaves the array holding exactly the reference newest-first order of its original contents. |
| Ranking.InsertIntoPrefix | src/main.rs:80-84 | One sorting step: the element moves into the sorted prefix, and the elements after it stay in place. |
| Ranking.NewestFirstPermutation | src/main.rs:80-84 | Sorting neither loses nor duplicates images: the result is a permutation of the input. |
| Ranking.NewestFirstOrdered | src/main.rs:80-84 | Push times are non-increasing along the sorted sequence, with a missing push time read as 0. |
| Ranking.NewestFirstStable | src/main.rs:80-84 | Images with equal push times keep their listing order, as the stable `sort_by` does. |
| Ranking.StableSortIsNewestFirst | src/main.rs:80-84 | Any ordering that is non-increasing in push time and stable equals the reference order, so any stable sort algorithm gives the same rows. |
| Ranking.OrderedStableUnique | src/main.rs:80-84 | Two orderings that are non-increasing in push time and agree on the images of every push time are identical. |
| Ranking.InsertMultiset | src/main.rs:80-84 | Inserting an image adds exactly that image. |
| Ranking.InsertOrdered | src/main.rs:80-84 | Inserting into a newest-first sequence keeps it newest first. |
| Ranking.InsertStable | src/main.rs:80-84 | Inserting an image puts it last among the images of its push time. |
| Ranking.FirstNewest | src/main.rs:87-91 | For a non-empty listing, returns the index of an image with the greatest push time that no earlier image matches. |
| Ranking.NewestFirstHead | src/main.rs:87-91 | The first image after sorting is the earliest-listed image with the greatest push time. |
| Cost.MonthlyCost | src/main.rs:19-25 | The cost times 10 GiB equals the size times the number of images (size / 2^30 × count × 0.10). It is 0 without images or with size 0, and never negative for a non-negative size. |
| Cost.MonthlyCostMonotoneInImages | src/main.rs:19-25 | With a non-negative size, more images never cost less. |
| Cost.MonthlyCostMonotoneInSize | src/main.rs:19-25 | A larger newest image never costs less. |
| Cost.MonthlyCostAdditive | src/main.rs:19-25 | The cost of m + n images is the cost of m plus the cost of n. |
| Cost.OneGiBImageCostsTenCents | src/main.rs:19-25 | One image of exactly 1 GiB costs $0.10 a month. |
| Cost.TotalCost | src/main.rs:101-114 | The loop's total is the sum of the rows' costs, accumulated in row order from 0. |
| Cost.SumOfCostsAppend | src/main.rs:101-114 | The total over two runs of rows is the sum of their totals. |
| Cost.SumOfCostsCoversEachRow | src/main.rs:101-114 | With non-negative sizes, the total is non-negative and at least each row's cost. |
| Cost.SumOfCostsOfEmptyRepositories | src/main.rs:101-114 | Rows without images add nothing to the total. |

## Left out

- The AWS client, region and network calls (`EcrClient`, `describe_*().sync()`) are replaced by response scripts. Repository listings use one script; image listings use a function from repository name to script. Errors are kept only as an opaque message.
- A listing whose responses never stop (always a continuation token) makes the program recurse forever. The loads require that the script ends. Stack depth is not modelled.
- The tab-aligned output (`TabWriter`, `writeln!`, `flush`) and its I/O errors are not modelled. `Cost.TotalCost` models only the accumulation of the total, not the printing of each row.
- Ranking.ImageDetail: push times are whole seconds (`int`). The f64 push time, its truncating `as i64` cast and the panic of `NaiveDateTime::from_timestamp` on an out-of-range value are not modelled.
- Ranking.SortNewestFirst: this is an insertion sort, while the standard library's `sort_by` is a merge sort. `Ranking.StableSortIsNewestFirst` shows that every stable newest-first sort gives the same result. Allocation and the merge steps are not modelled.
- Cost.MonthlyCost: computed with exact reals, so f64 rounding is not modelled. The `i64` size and `usize` count widths are unbounded in the model.
- The `Repository` and `ImageDetail` records keep only the fields the program reads. These are the repository name, and the push time and size.
