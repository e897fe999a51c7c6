/**
 * The per-repository cost estimate (`Repo::monthly_cost`, src/main.rs) and the
 * total that `main` accumulates over the report's rows. Amounts are exact
 * `real` dollars.
 */
module Cost {

  /** One report row: repository name, size of its newest image (bytes), number of images. */
  datatype Repo = Repo(name: string, latestImageSize: int, hostedImages: nat)

  /** Bytes in a GiB, `1024 * 1024 * 1024`. */
  const BytesPerGiB: int := 1024 * 1024 * 1024

  /** Storage price in dollars per GiB-month. */
  const DollarsPerGiBMonth: real := 0.10

  /**
   * Every hosted image is billed as if it were as large as the newest one:
   * size in GiB, times the number of images, times the price.
   */
  function MonthlyCost(repo: Repo): (cost: real)
    ensures cost * (10 * BytesPerGiB) as real == (repo.latestImageSize * repo.hostedImages) as real
    ensures repo.hostedImages == 0 || repo.latestImageSize == 0 ==> cost == 0.0
    ensures repo.latestImageSize >= 0 ==> cost >= 0.0
  {
    (repo.latestImageSize as real / BytesPerGiB as real) * repo.hostedImages as real * DollarsPerGiBMonth
  }

  /** With a non-negative image size, hosting more images never costs less. */
  lemma MonthlyCostMonotoneInImages(repo: Repo, more: nat)
    requires repo.latestImageSize >= 0 && repo.hostedImages <= more
    ensures MonthlyCost(repo) <= MonthlyCost(repo.(hostedImages := more))
  {
    var k := (10 * BytesPerGiB) as real;
    var c0, c1 := MonthlyCost(repo), MonthlyCost(repo.(hostedImages := more));
    assert repo.latestImageSize * repo.hostedImages <= repo.latestImageSize * more by {
      assert repo.latestImageSize * (more - repo.hostedImages) >= 0;
    }
    assert c0 * k <= c1 * k;
  }

  /** A larger newest image never costs less, for the same number of images. */
  lemma MonthlyCostMonotoneInSize(repo: Repo, larger: int)
    requires repo.latestImageSize <= larger
    ensures MonthlyCost(repo) <= MonthlyCost(repo.(latestImageSize := larger))
  {
    var k := (10 * BytesPerGiB) as real;
    var c0, c1 := MonthlyCost(repo), MonthlyCost(repo.(latestImageSize := larger));
    assert repo.latestImageSize * repo.hostedImages <= larger * repo.hostedImages by {
      assert (larger - repo.latestImageSize) * repo.hostedImages >= 0;
    }
    assert c0 * k <= c1 * k;
  }

  /** The cost is linear in the number of images. */
  lemma MonthlyCostAdditive(repo: Repo, m: nat, n: nat)
    ensures MonthlyCost(repo.(hostedImages := m + n))
         == MonthlyCost(repo.(hostedImages := m)) + MonthlyCost(repo.(hostedImages := n))
  {
    var k := (10 * BytesPerGiB) as real;
    var s := repo.latestImageSize;
    var cm, cn := MonthlyCost(repo.(hostedImages := m)), MonthlyCost(repo.(hostedImages := n));
    var cmn := MonthlyCost(repo.(hostedImages := m + n));
    assert s * (m + n) == s * m + s * n;
    assert cmn * k == cm * k + cn * k;
  }

  /** One image of exactly one GiB costs ten cents a month. */
  lemma OneGiBImageCostsTenCents(name: string)
    ensures MonthlyCost(Repo(name, BytesPerGiB, 1)) == 0.10
  {
  }

  /** The running total of `main`: costs added from 0 in row order. */
  function SumOfCosts(rows: seq<Repo>): real
  {
    if rows == [] then 0.0 else SumOfCosts(rows[..|rows| - 1]) + MonthlyCost(rows[|rows| - 1])
  }

  /** The total of a report split in two is the sum of the two parts' totals. */
  lemma {:induction false} SumOfCostsAppend(a: seq<Repo>, b: seq<Repo>)
    ensures SumOfCosts(a + b) == SumOfCosts(a) + SumOfCosts(b)
    decreases |b|
  {
    if b != [] {
      var ab := a + b;
      assert ab[..|ab| - 1] == a + b[..|b| - 1];
      SumOfCostsAppend(a, b[..|b| - 1]);
    } else {
      assert a + b == a;
    }
  }

  /** With non-negative sizes, the total is at least the cost of each row. */
  lemma {:induction false} SumOfCostsCoversEachRow(rows: seq<Repo>, i: nat)
    requires forall k :: 0 <= k < |rows| ==> rows[k].latestImageSize >= 0
    requires i < |rows|
    ensures MonthlyCost(rows[i]) <= SumOfCosts(rows)
    ensures SumOfCosts(rows) >= 0.0
    decreases |rows|
  {
    var init := rows[..|rows| - 1];
    if init != [] {
      SumOfCostsCoversEachRow(init, if i < |init| then i else 0);
    }
  }

  /** Rows that host no images add nothing to the total. */
  lemma {:induction false} SumOfCostsOfEmptyRepositories(rows: seq<Repo>)
    requires forall k :: 0 <= k < |rows| ==> rows[k].hostedImages == 0
    ensures SumOfCosts(rows) == 0.0
    decreases |rows|
  {
    if rows != [] {
      SumOfCostsOfEmptyRepositories(rows[..|rows| - 1]);
    }
  }

  /** The fold in `main`: start at 0 and add each row's monthly cost, in row order. */
  method TotalCost(rows: seq<Repo>) returns (total: real)
    ensures total == SumOfCosts(rows)
  {
    total := 0.0;
    for i := 0 to |rows|
      invariant total == SumOfCosts(rows[..i])
    {
      assert rows[..i + 1][..i] == rows[..i];
      total := total + MonthlyCost(rows[i]);
    }
    assert rows[..|rows|] == rows;
  }
}
