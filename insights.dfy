/**
 * The registry-facing operations of src/main.rs: listing every repository and
 * every image of a repository page by page, and `repos`, which turns each
 * listed repository into one report row.
 */
module Insights {
  import opened Wrappers
  import opened Pagination
  import opened Ranking
  import opened Cost

  /** A listed repository; only its (optional) name is read. */
  datatype Repository = Repository(repositoryName: Option<string>)

  /** The page size every listing request asks for. */
  const MaxResults: int := 1000

  datatype DescribeImagesRequest =
    DescribeImagesRequest(repositoryName: string, maxResults: Option<int>, nextToken: Option<Token>)

  datatype DescribeRepositoriesRequest =
    DescribeRepositoriesRequest(maxResults: Option<int>, nextToken: Option<Token>)

  /** The requests a load sent, in order, and what it returned. */
  datatype Fetched<Q, T> = Fetched(requests: seq<Q>, outcome: Result<seq<T>, ApiError>)

  /**
   * `load_all_images(ecr, name, None)`: every request names the repository and
   * asks for 1000 results; the first carries no token and each later one the
   * token of the response before it; the outcome is that of the listing.
   */
  function LoadAllImages(repositoryName: string, script: seq<Response<ImageDetail>>)
    : (f: Fetched<DescribeImagesRequest, ImageDetail>)
    requires Ends(script)
    ensures |f.requests| == FirstFinal(script) + 1
    ensures forall i :: 0 <= i < |f.requests| ==>
              f.requests[i].repositoryName == repositoryName && f.requests[i].maxResults == Some(MaxResults)
    ensures f.requests[0].nextToken == None
    ensures forall i :: 0 <= i < FirstFinal(script) ==> f.requests[i + 1].nextToken == script[i].value.nextToken
    ensures f.outcome == Load(script, None).outcome
  {
    var l := Load(script, None);
    Fetched(seq(|l.tokens|, i requires 0 <= i < |l.tokens| =>
                  DescribeImagesRequest(repositoryName, Some(MaxResults), l.tokens[i])),
            l.outcome)
  }

  /**
   * `load_all_repositories(ecr, None)`: every request asks for 1000 results;
   * the first carries no token and each later one the token of the response
   * before it; the outcome is that of the listing.
   */
  function LoadAllRepositories(script: seq<Response<Repository>>)
    : (f: Fetched<DescribeRepositoriesRequest, Repository>)
    requires Ends(script)
    ensures |f.requests| == FirstFinal(script) + 1
    ensures forall i :: 0 <= i < |f.requests| ==> f.requests[i].maxResults == Some(MaxResults)
    ensures f.requests[0].nextToken == None
    ensures forall i :: 0 <= i < FirstFinal(script) ==> f.requests[i + 1].nextToken == script[i].value.nextToken
    ensures f.outcome == Load(script, None).outcome
  {
    var l := Load(script, None);
    Fetched(seq(|l.tokens|, i requires 0 <= i < |l.tokens| =>
                  DescribeRepositoriesRequest(Some(MaxResults), l.tokens[i])),
            l.outcome)
  }

  /** A repository's name, or the empty string when it has none. */
  function NameOf(repo: Repository): string {
    repo.repositoryName.GetOr("")
  }

  /** The image service: the responses it gives, in order, to the image listing of each repository name. */
  type ImageService = string -> seq<Response<ImageDetail>>

  /** The service ends every image listing. */
  ghost predicate EndsEveryListing(imagesOf: ImageService) {
    forall name :: Ends(imagesOf(name))
  }

  /**
   * The outcome of listing the images of `repo` under its name, a missing name
   * becoming the empty string (that of `LoadAllImages`).
   */
  function ImagesOf(imagesOf: ImageService, repo: Repository): Result<seq<ImageDetail>, ApiError>
    requires EndsEveryListing(imagesOf)
  {
    Load(imagesOf(NameOf(repo)), None).outcome
  }

  /**
   * The row for a repository, stated without the sort: the size of the
   * earliest-listed image among those pushed last (0 when the size is missing
   * or there are no images), and the number of images.
   */
  function Summary(name: string, images: seq<ImageDetail>): Repo {
    Repo(name,
         if images == [] then 0 else images[FirstNewest(images)].imageSizeInBytes.GetOr(0),
         |images|)
  }

  /** What the fold in `repos` makes of one repository: its row, or the failure of its image listing. */
  function RowOf(imagesOf: ImageService, repo: Repository): Result<Repo, ApiError>
    requires EndsEveryListing(imagesOf)
  {
    match ImagesOf(imagesOf, repo)
    case Failure(e) => Failure(e)
    case Success(images) => Success(Summary(NameOf(repo), images))
  }

  /**
   * One repository's row, as `repos` builds it: sort the fetched images newest
   * first, take the first one's size (0 if missing or if there is none) and
   * count the images.
   */
  method Summarize(name: string, fetched: seq<ImageDetail>) returns (row: Repo)
    ensures row == Summary(name, fetched)
  {
    var images := new ImageDetail[|fetched|](k requires 0 <= k < |fetched| => fetched[k]);
    assert images[..] == fetched;
    SortNewestFirst(images);
    var latest := 0;
    if images.Length > 0 {
      NewestFirstHead(fetched, FirstNewest(fetched));
      latest := images[0].imageSizeInBytes.GetOr(0);
    }
    row := Repo(name, latest, images.Length);
  }

  /**
   * The body of the fold in `repos` for one repository: take its name (empty
   * if missing), list its images, and summarize them; a failed listing is the
   * result.
   */
  method SummarizeRepository(repo: Repository, imagesOf: ImageService) returns (r: Result<Repo, ApiError>)
    requires EndsEveryListing(imagesOf)
    ensures r == RowOf(imagesOf, repo)
  {
    var name := repo.repositoryName.GetOr("");
    var loaded := LoadAllImages(name, imagesOf(name)).outcome;
    if loaded.Failure? {
      return Failure(loaded.error);
    }
    var row := Summarize(name, loaded.value);
    r := Success(row);
  }

  /** A repository without images gets a zero-size, zero-count row that costs nothing. */
  lemma EmptyRepositoryCostsNothing(name: string)
    ensures Summary(name, []) == Repo(name, 0, 0)
    ensures MonthlyCost(Summary(name, [])) == 0.0
  {
  }

  /** The image listing of `repositories[i]` fails, and those of all repositories before it succeed. */
  ghost predicate FirstFailingAt(imagesOf: ImageService, repositories: seq<Repository>, i: int)
    requires EndsEveryListing(imagesOf)
  {
    && 0 <= i < |repositories|
    && RowOf(imagesOf, repositories[i]).Failure?
    && forall j :: 0 <= j < i ==> RowOf(imagesOf, repositories[j]).Success?
  }

  /** `rows` holds, in order, the row of each repository, all of whose image listings succeed. */
  ghost predicate SummarizesEach(imagesOf: ImageService, repositories: seq<Repository>, rows: seq<Repo>)
    requires EndsEveryListing(imagesOf)
  {
    && |rows| == |repositories|
    && forall i :: 0 <= i < |rows| ==> RowOf(imagesOf, repositories[i]) == Success(rows[i])
  }

  /** At most one repository is the first whose image listing fails. */
  lemma FirstFailureUnique(imagesOf: ImageService, repositories: seq<Repository>, i: int)
    requires EndsEveryListing(imagesOf)
    requires 0 <= i < |repositories| && RowOf(imagesOf, repositories[i]).Failure?
    requires forall j :: 0 <= j < i ==> RowOf(imagesOf, repositories[j]).Success?
    ensures FirstFailingAt(imagesOf, repositories, i)
    ensures forall k :: FirstFailingAt(imagesOf, repositories, k) ==> k == i
  {
  }

  /** When every image listing succeeds, none is the first to fail. */
  lemma NoFirstFailure(imagesOf: ImageService, repositories: seq<Repository>)
    requires EndsEveryListing(imagesOf)
    requires forall j :: 0 <= j < |repositories| ==> RowOf(imagesOf, repositories[j]).Success?
    ensures forall k :: !FirstFailingAt(imagesOf, repositories, k)
  {
  }

  lemma SummarizesEachExtend(imagesOf: ImageService, repositories: seq<Repository>, rows: seq<Repo>,
                             repo: Repository, row: Repo)
    requires EndsEveryListing(imagesOf)
    requires SummarizesEach(imagesOf, repositories, rows)
    requires RowOf(imagesOf, repo) == Success(row)
    ensures SummarizesEach(imagesOf, repositories + [repo], rows + [row])
  {
    var reps', rows' := repositories + [repo], rows + [row];
    forall i | 0 <= i < |rows'| ensures RowOf(imagesOf, reps'[i]) == Success(rows'[i]) {
      if i < |rows| {
        assert reps'[i] == repositories[i] && rows'[i] == rows[i];
      }
    }
  }

  /**
   * The `try_fold` of `repos` over the listed repositories: in listing order,
   * list each one's images and push its row; the first failed image listing
   * is the result.
   */
  method SummarizeAll(repositories: seq<Repository>, imagesOf: ImageService)
    returns (r: Result<seq<Repo>, ApiError>)
    requires EndsEveryListing(imagesOf)
    ensures r.Failure? <==> exists i :: FirstFailingAt(imagesOf, repositories, i)
    ensures forall i :: FirstFailingAt(imagesOf, repositories, i) ==> r == Failure(RowOf(imagesOf, repositories[i]).error)
    ensures r.Success? ==> SummarizesEach(imagesOf, repositories, r.value)
  {
    var rows: seq<Repo> := [];
    for i := 0 to |repositories|
      invariant forall j :: 0 <= j < i ==> RowOf(imagesOf, repositories[j]).Success?
      invariant SummarizesEach(imagesOf, repositories[..i], rows)
    {
      var summarized := SummarizeRepository(repositories[i], imagesOf);
      if summarized.Failure? {
        FirstFailureUnique(imagesOf, repositories, i);
        return Failure(summarized.error);
      }
      SummarizesEachExtend(imagesOf, repositories[..i], rows, repositories[i], summarized.value);
      rows := rows + [summarized.value];
      assert repositories[..i + 1] == repositories[..i] + [repositories[i]];
    }
    assert repositories[..|repositories|] == repositories;
    NoFirstFailure(imagesOf, repositories);
    r := Success(rows);
  }

  /**
   * `repos`: list the repositories, then summarize them in listing order; a
   * failed repository listing is the result.
   */
  method Repos(repositoryScript: seq<Response<Repository>>, imagesOf: ImageService)
    returns (r: Result<seq<Repo>, ApiError>)
    requires Ends(repositoryScript)
    requires EndsEveryListing(imagesOf)
    ensures LoadAllRepositories(repositoryScript).outcome.Failure? ==>
              r == Failure(LoadAllRepositories(repositoryScript).outcome.error)
    ensures LoadAllRepositories(repositoryScript).outcome.Success? ==>
              var repositories := LoadAllRepositories(repositoryScript).outcome.value;
              && (r.Failure? <==> exists i :: FirstFailingAt(imagesOf, repositories, i))
              && (forall i :: FirstFailingAt(imagesOf, repositories, i) ==> r == Failure(RowOf(imagesOf, repositories[i]).error))
              && (r.Success? ==> SummarizesEach(imagesOf, repositories, r.value))
  {
    var listed := LoadAllRepositories(repositoryScript).outcome;
    if listed.Failure? {
      return Failure(listed.error);
    }
    r := SummarizeAll(listed.value, imagesOf);
  }
}
