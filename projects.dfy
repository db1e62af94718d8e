/** The GitHub part of the page: a repository record from the listing endpoint, the
    card `createProjectCard` makes of it, and what the projects grid holds after a
    fetch (`fetchUserRepositories`, `showNoRepositories`, `showGitHubError`). */
module Projects {

  datatype Option<T> = None | Some(value: T)

  /** One element of the JSON array the listing endpoint returns. A field that is
      absent or `null` is `None`. */
  datatype Repository = Repository(
    name: string,
    description: Option<string>,
    language: Option<string>,
    updatedAt: string,
    htmlUrl: string,
    homepage: Option<string>)

  /** What the fetch of the listing produced, grouped by the path the code takes.
      `ArrayBody` is a parsed JSON array of repository objects (an array of other
      values renders a card per element with `undefined` fields, which this type
      does not describe). `ObjectBody` is a
      non-null parsed body on which `repos.length > 0` is false without throwing: an
      object without a numeric `length` (such as the `{"message": ...}` body GitHub
      sends with a 403 or a 404), a number, a boolean or the empty string. `Failed` is
      every outcome that reaches the `catch`: a rejected `fetch`, a body that is not
      JSON, `null` (reading `length` throws), a non-empty string or an object with a
      positive `length` (`forEach` is missing), and an array holding `null`
      (`createProjectCard` throws on it; the cards appended before it are then
      replaced by the notice). */
  datatype RepoResponse = ArrayBody(repos: seq<Repository>) | ObjectBody | Failed

  /** A string field is truthy in JavaScript when it is present and non-empty. */
  predicate Truthy(v: Option<string>) {
    v.Some? && v.value != ""
  }

  /** `v || fallback` on a string field. */
  function OrElse(v: Option<string>, fallback: string): string {
    if Truthy(v) then v.value else fallback
  }

  const NoDescription := "No description available"
  const DefaultLanguage := "Code"

  /** `new Date(t).toLocaleDateString()`: its text depends on the browser's locale, so
      the card keeps the timestamp it is formatted from. */
  datatype DateLabel = LocaleDateOf(timestamp: string)

  /** One child of the projects grid: a repository's card, or a notice card holding a
      heading and a paragraph. */
  datatype GridItem =
    | ProjectCard(title: string, description: string, language: string,
                  updated: DateLabel, codeUrl: string, demoUrl: Option<string>)
    | NoticeCard(heading: string, text: string)

  const NoRepositoriesCard :=
    NoticeCard("No repositories found", "Start building amazing projects and they'll appear here!")
  const UnableToLoadCard :=
    NoticeCard("Unable to load repositories", "Please check your GitHub username or try again later.")

  /** The activity container: what the page shipped with, the calendar placeholder
      `fetchGitHubActivity` puts in, or the notice `showGitHubError` puts in. */
  datatype ActivityArea = StaticActivity | CalendarEmbed | ActivityUnavailable

  /** createProjectCard: the card's fields, with the fallbacks for a missing or empty
      description and language; a "Live Demo" link only when the homepage is truthy. */
  function CardOf(repo: Repository): (card: GridItem)
    ensures card.ProjectCard?
    ensures card.title == repo.name && card.codeUrl == repo.htmlUrl
    ensures card.updated == LocaleDateOf(repo.updatedAt)
    ensures Truthy(repo.description) ==> card.description == repo.description.value
    ensures !Truthy(repo.description) ==> card.description == NoDescription
    ensures Truthy(repo.language) ==> card.language == repo.language.value
    ensures !Truthy(repo.language) ==> card.language == DefaultLanguage
    ensures card.demoUrl.Some? <==> Truthy(repo.homepage)
    ensures card.demoUrl.Some? ==> card.demoUrl.value == repo.homepage.value
  {
    ProjectCard(
      repo.name,
      OrElse(repo.description, NoDescription),
      OrElse(repo.language, DefaultLanguage),
      LocaleDateOf(repo.updatedAt),
      repo.htmlUrl,
      if Truthy(repo.homepage) then Some(repo.homepage.value) else None)
  }

  /** The cards of `repos`, one per repository, in order. */
  function CardsOf(repos: seq<Repository>): (cards: seq<GridItem>)
    ensures |cards| == |repos|
    ensures forall k | 0 <= k < |repos| :: cards[k] == CardOf(repos[k])
  {
    if repos == [] then [] else [CardOf(repos[0])] + CardsOf(repos[1..])
  }

  /** The grid after `fetchUserRepositories`: the cards of a non-empty array; the
      "No repositories found" notice when `repos.length > 0` is false (an empty array,
      or a body without a positive `length`); the "Unable to load" notice when the
      fetch or the loop threw. Never an empty grid, and never cards mixed with a
      notice. */
  function GridFor(response: RepoResponse): (grid: seq<GridItem>)
    ensures |grid| >= 1
    ensures (forall item | item in grid :: item.ProjectCard?)
            || (|grid| == 1 && grid[0].NoticeCard?)
  {
    match response
    case ArrayBody(repos) => if |repos| > 0 then CardsOf(repos) else [NoRepositoriesCard]
    case ObjectBody => [NoRepositoriesCard]
    case Failed => [UnableToLoadCard]
  }

  /** A non-empty listing gives exactly one card per repository, in input order, and no
      notice. */
  lemma GridOfListing(repos: seq<Repository>)
    requires |repos| > 0
    ensures |GridFor(ArrayBody(repos))| == |repos|
    ensures forall k | 0 <= k < |repos| :: GridFor(ArrayBody(repos))[k] == CardOf(repos[k])
    ensures forall item | item in GridFor(ArrayBody(repos)) :: item.ProjectCard?
  {
  }

  /** The number of grid children for a listing of n repositories is n, except that
      none gives exactly one notice. */
  lemma GridCount(repos: seq<Repository>)
    ensures |GridFor(ArrayBody(repos))| == if |repos| == 0 then 1 else |repos|
    ensures |repos| == 0 ==> GridFor(ArrayBody(repos)) == [NoRepositoriesCard]
  {
  }

  /** A failed fetch gives the "Unable to load repositories" notice alone; a body with
      no length gives the "No repositories found" notice alone. */
  lemma GridOfFailures()
    ensures GridFor(Failed) == [UnableToLoadCard]
    ensures GridFor(ObjectBody) == [NoRepositoriesCard]
    ensures UnableToLoadCard != NoRepositoriesCard
  {
  }

  /** Exactly the responses that are a non-empty array produce repository cards. */
  lemma CardsIffNonEmptyArray(response: RepoResponse)
    ensures (exists item | item in GridFor(response) :: item.ProjectCard?)
            <==> response.ArrayBody? && |response.repos| > 0
  {
    if response.ArrayBody? && |response.repos| > 0 {
      assert GridFor(response)[0] == CardOf(response.repos[0]);
    }
  }
}
