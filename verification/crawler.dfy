/** The deterministic parts of `Crawler` in crawler.py: splitting the GitHub
    target `org/repo/project` and the Jira credential `user/token`, choosing
    the Jira project by key, and, at the start of a synchronisation pass,
    choosing the board project and the "Task" issue type by title. */
module Crawler {
  import opened Outcomes
  import Text
  import Pagination

  datatype InitError =
    /** `github_repository` does not split into exactly three parts. */
    | BadRepositoryFormat
    /** `jira_token` does not split into exactly two parts. */
    | BadTokenFormat
    /** No Jira project has the requested key. */
    | JiraProjectNotFound(key: string)

  /** The GitHub side of the configuration. */
  datatype Target = Target(organization: string, repository: string, project: string)

  /** The Jira basic-auth pair. */
  datatype Credentials = Credentials(user: string, secret: string)

  datatype JiraProject = JiraProject(key: string, name: string)
  /** A GitHub node found by title: a board project (`QlProject`) or an
      issue type (`QlIssueType`). */
  datatype Titled = Titled(id: string, title: string)
  type BoardProject = Titled
  type IssueType = Titled

  /** What `Crawler.__init__` keeps. */
  datatype Crawler = Crawler(target: Target, credentials: Credentials, jiraProject: JiraProject)

  lemma JoinTwo(parts: seq<string>)
    requires |parts| == 2
    ensures Text.Join(parts, '/') == parts[0] + "/" + parts[1]
  {
  }

  lemma JoinThree(parts: seq<string>)
    requires |parts| == 3
    ensures Text.Join(parts, '/') == parts[0] + "/" + parts[1] + "/" + parts[2]
  {
    JoinTwo(parts[1..]);
  }

  /** The GitHub target string: three `/`-separated parts, taken in order as
      organisation, repository and board project; empty parts are accepted. */
  function ParseTarget(s: string): (r: Result<Target, InitError>)
    ensures r.Ok? <==> Text.Count(s, '/') == 2
    ensures r.Err? ==> r.error == BadRepositoryFormat
    ensures r.Ok? ==>
      r.value.organization + "/" + r.value.repository + "/" + r.value.project == s
    ensures r.Ok? ==>
      '/' !in r.value.organization && '/' !in r.value.repository && '/' !in r.value.project
  {
    var parts := Text.Split(s, '/');
    if |parts| != 3 then Err(BadRepositoryFormat)
    else
      JoinThree(parts);
      Ok(Target(parts[0], parts[1], parts[2]))
  }

  /** Every target whose parts have no `/` is read back from its rendering. */
  lemma TargetRoundTrip(t: Target)
    requires '/' !in t.organization && '/' !in t.repository && '/' !in t.project
    ensures ParseTarget(t.organization + "/" + t.repository + "/" + t.project) == Ok(t)
  {
    var parts := [t.organization, t.repository, t.project];
    JoinThree(parts);
    Text.SplitJoin(parts, '/');
  }

  /** The Jira credential string: two `/`-separated parts, taken in order as
      user and secret. */
  function ParseJiraToken(s: string): (r: Result<Credentials, InitError>)
    ensures r.Ok? <==> Text.Count(s, '/') == 1
    ensures r.Err? ==> r.error == BadTokenFormat
    ensures r.Ok? ==> r.value.user + "/" + r.value.secret == s
    ensures r.Ok? ==> '/' !in r.value.user && '/' !in r.value.secret
  {
    var parts := Text.Split(s, '/');
    if |parts| != 2 then Err(BadTokenFormat)
    else
      JoinTwo(parts);
      Ok(Credentials(parts[0], parts[1]))
  }

  /** Every credential pair whose user and secret have no `/` is read back
      from its rendering. */
  lemma CredentialsRoundTrip(c: Credentials)
    requires '/' !in c.user && '/' !in c.secret
    ensures ParseJiraToken(c.user + "/" + c.secret) == Ok(c)
  {
    JoinTwo([c.user, c.secret]);
    Text.SplitJoin([c.user, c.secret], '/');
  }

  /** The index of the first element of `names` equal to `want`. */
  function FirstMatch(names: seq<string>, want: string): (r: Option<nat>)
    ensures r.None? <==> want !in names
    ensures r.Some? ==> r.value < |names| && names[r.value] == want
    ensures r.Some? ==> forall j :: 0 <= j < r.value ==> names[j] != want
    decreases |names|
  {
    if |names| == 0 then None
    else if names[0] == want then Some(0)
    else match FirstMatch(names[1..], want)
      case None => None
      case Some(i) => Some(i + 1)
  }

  function Keys(projects: seq<JiraProject>): (keys: seq<string>)
    ensures |keys| == |projects|
    ensures forall i :: 0 <= i < |projects| ==> keys[i] == projects[i].key
  {
    seq(|projects|, i requires 0 <= i < |projects| => projects[i].key)
  }

  function Titles(nodes: seq<Titled>): (titles: seq<string>)
    ensures |titles| == |nodes|
    ensures forall i :: 0 <= i < |nodes| ==> titles[i] == nodes[i].title
  {
    seq(|nodes|, i requires 0 <= i < |nodes| => nodes[i].title)
  }

  /** The Jira project loop of `Crawler.__init__`: the first project whose
      key is the requested id, or an error naming the id. */
  function SelectJiraProject(projects: seq<JiraProject>, key: string): (r: Result<JiraProject, InitError>)
    ensures r.Err? <==> forall p :: p in projects ==> p.key != key
    ensures r.Err? ==> r.error == JiraProjectNotFound(key)
    ensures r.Ok? ==> exists i :: 0 <= i < |projects| && projects[i] == r.value &&
                                 r.value.key == key &&
                                 forall j :: 0 <= j < i ==> projects[j].key != key
  {
    match FirstMatch(Keys(projects), key)
    case None =>
      assert forall p :: p in projects ==> p.key in Keys(projects);
      Err(JiraProjectNotFound(key))
    case Some(i) => Ok(projects[i])
  }

  /** `Crawler.__init__` with the remote services' answers as parameters:
      the target string is checked first, then the Jira credential, then
      the project key. */
  function Init(jiraToken: string, jiraProjectKey: string, githubRepository: string,
                jiraProjects: seq<JiraProject>): (r: Result<Crawler, InitError>)
    ensures Text.Count(githubRepository, '/') != 2 ==> r == Err(BadRepositoryFormat)
    ensures Text.Count(githubRepository, '/') == 2 && Text.Count(jiraToken, '/') != 1 ==>
      r == Err(BadTokenFormat)
    ensures r.Ok? <==>
      Text.Count(githubRepository, '/') == 2 && Text.Count(jiraToken, '/') == 1 &&
      exists p :: p in jiraProjects && p.key == jiraProjectKey
    ensures (Text.Count(githubRepository, '/') == 2 && Text.Count(jiraToken, '/') == 1 &&
             forall p :: p in jiraProjects ==> p.key != jiraProjectKey) ==>
            r == Err(JiraProjectNotFound(jiraProjectKey))
    ensures r.Ok? ==> Ok(r.value.target) == ParseTarget(githubRepository)
    ensures r.Ok? ==> Ok(r.value.credentials) == ParseJiraToken(jiraToken)
    ensures r.Ok? ==> exists i :: 0 <= i < |jiraProjects| && jiraProjects[i] == r.value.jiraProject &&
                                 r.value.jiraProject.key == jiraProjectKey &&
                                 forall j :: 0 <= j < i ==> jiraProjects[j].key != jiraProjectKey
  {
    match ParseTarget(githubRepository)
    case Err(e) => Err(e)
    case Ok(target) =>
      match ParseJiraToken(jiraToken)
      case Err(e) => Err(e)
      case Ok(credentials) =>
        match SelectJiraProject(jiraProjects, jiraProjectKey)
        case Err(e) => Err(e)
        case Ok(project) => Ok(Crawler(target, credentials, project))
  }

  /** The remote calls a pass makes, in the order it makes them. */
  datatype RemoteCall = FetchRepository | FetchBoardProjects | FetchIssueTypes | SearchJiraTasks | FetchIssues

  datatype PassResult<N> =
    /** No board project carries the configured title; the pass returns. */
    | BoardProjectMissing
    /** No issue type is titled "Task"; the pass returns. */
    | TaskTypeMissing(board: BoardProject)
    /** Both were found and the repository's issues were listed. */
    | Listed(board: BoardProject, taskType: IssueType, issues: Option<Pagination.Listing<N>>)

  datatype Pass<N> = Pass(result: PassResult<N>, calls: seq<RemoteCall>)

  /** The first issue type titled "Task" is the one issues are created with. */
  const TaskTypeTitle: string := "Task"

  /** `Crawler.crawl` up to the per-task loop, with the answers of GitHub as
      parameters: the board project is the first with the configured title
      and the issue type the first titled "Task"; a missing one ends the
      pass before any issue is fetched. */
  function Crawl<N(==)>(c: Crawler, boards: seq<BoardProject>, types: seq<IssueType>,
                        responses: seq<Pagination.Page<N>>): (p: Pass<N>)
    ensures p.result.BoardProjectMissing? <==> c.target.project !in Titles(boards)
    ensures p.result.TaskTypeMissing? <==>
      c.target.project in Titles(boards) && TaskTypeTitle !in Titles(types)
    ensures (FetchIssueTypes in p.calls) <==> !p.result.BoardProjectMissing?
    ensures (FetchIssues in p.calls) <==> p.result.Listed?
    ensures |p.calls| >= 2 && p.calls[..2] == [FetchRepository, FetchBoardProjects]
    ensures p.result.BoardProjectMissing? ==> p.calls == [FetchRepository, FetchBoardProjects]
    ensures p.result.TaskTypeMissing? ==>
      p.calls == [FetchRepository, FetchBoardProjects, FetchIssueTypes]
    ensures p.result.Listed? ==>
      p.calls == [FetchRepository, FetchBoardProjects, FetchIssueTypes, SearchJiraTasks, FetchIssues]
    ensures !p.result.BoardProjectMissing? ==>
      exists i :: 0 <= i < |boards| && boards[i] == p.result.board &&
                 p.result.board.title == c.target.project &&
                 forall j :: 0 <= j < i ==> boards[j].title != c.target.project
    ensures p.result.Listed? ==>
      exists i :: 0 <= i < |types| && types[i] == p.result.taskType &&
                 p.result.taskType.title == TaskTypeTitle &&
                 forall j :: 0 <= j < i ==> types[j].title != TaskTypeTitle
    ensures p.result.Listed? ==> p.result.issues == Pagination.GetIssues(responses)
  {
    var start := [FetchRepository, FetchBoardProjects];
    match FirstMatch(Titles(boards), c.target.project)
    case None => Pass(BoardProjectMissing, start)
    case Some(b) =>
      match FirstMatch(Titles(types), TaskTypeTitle)
      case None => Pass(TaskTypeMissing(boards[b]), start + [FetchIssueTypes])
      case Some(t) =>
        Pass(Listed(boards[b], types[t], Pagination.GetIssues(responses)),
             start + [FetchIssueTypes, SearchJiraTasks, FetchIssues])
  }
}
