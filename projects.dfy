/** Project records and the list operations behind the project store, as functions on the
    list: what `addProject`, `removeProject`, `updateProject` and `saveProject` turn the list
    into. The store class applies them to its list in place. */
module Projects {
  import opened Wrappers
  import opened Text
  import Uri

  /** A project record. `github` and `live` may be missing (`undefined`) or empty. */
  datatype Project = Project(
    id: int,
    title: string,
    description: string,
    image: string,
    technologies: seq<string>,
    github: Option<string>,
    live: Option<string>)

  /** The fields an `updateProject` payload carries; `None` is a field the payload lacks. */
  datatype ProjectUpdate = ProjectUpdate(
    id: Option<int>,
    title: Option<string>,
    description: Option<string>,
    image: Option<string>,
    technologies: Option<seq<string>>,
    github: Option<string>,
    live: Option<string>)

  /** The empty payload `{}`. */
  const NoChange := ProjectUpdate(None, None, None, None, None, None, None)

  /** One field of a shallow merge: the payload's value if it has one. */
  function Pick<T>(kept: T, given: Option<T>): T {
    given.GetOr(kept)
  }

  function PickOption<T>(kept: Option<T>, given: Option<T>): Option<T> {
    if given.Some? then given else kept
  }

  /** The shallow merge `{...p, ...u}`: every field the payload carries wins, every other
      field keeps the record's value. */
  function Merge(p: Project, u: ProjectUpdate): (r: Project)
    ensures r.id == (if u.id.Some? then u.id.value else p.id)
    ensures r.title == (if u.title.Some? then u.title.value else p.title)
    ensures r.description == (if u.description.Some? then u.description.value else p.description)
    ensures r.image == (if u.image.Some? then u.image.value else p.image)
    ensures r.technologies == (if u.technologies.Some? then u.technologies.value else p.technologies)
    ensures r.github == (if u.github.Some? then u.github else p.github)
    ensures r.live == (if u.live.Some? then u.live else p.live)
  {
    Project(
      Pick(p.id, u.id), Pick(p.title, u.title), Pick(p.description, u.description),
      Pick(p.image, u.image), Pick(p.technologies, u.technologies),
      PickOption(p.github, u.github), PickOption(p.live, u.live))
  }

  /** Spreading two payloads one after the other, `{...u1, ...u2}`. */
  function Then(u1: ProjectUpdate, u2: ProjectUpdate): ProjectUpdate {
    ProjectUpdate(
      PickOption(u1.id, u2.id), PickOption(u1.title, u2.title),
      PickOption(u1.description, u2.description), PickOption(u1.image, u2.image),
      PickOption(u1.technologies, u2.technologies), PickOption(u1.github, u2.github),
      PickOption(u1.live, u2.live))
  }

  /** Merging the empty payload changes nothing. */
  lemma MergeNoChange(p: Project)
    ensures Merge(p, NoChange) == p
  {
  }

  /** Merging the same payload twice is merging it once. */
  lemma MergeIdempotent(p: Project, u: ProjectUpdate)
    ensures Merge(Merge(p, u), u) == Merge(p, u)
  {
  }

  /** Two merges in a row are one merge with the combined payload, the later one winning. */
  lemma MergeThen(p: Project, u1: ProjectUpdate, u2: ProjectUpdate)
    ensures Merge(Merge(p, u1), u2) == Merge(p, Then(u1, u2))
  {
  }

  // ---------------------------------------------------------------------------------------
  // Lookup by identifier

  /** `projects.findIndex(p => p.id === id)`: the first record with that identifier. */
  function FindIndex(ps: seq<Project>, id: int): (r: Option<nat>)
    ensures r.Some? ==> r.value < |ps| && ps[r.value].id == id
    ensures r.Some? ==> forall j :: 0 <= j < r.value ==> ps[j].id != id
    ensures r.None? <==> forall j :: 0 <= j < |ps| ==> ps[j].id != id
  {
    if ps == [] then None
    else if ps[0].id == id then Some(0)
    else match FindIndex(ps[1..], id)
      case None => None
      case Some(k) => Some(k + 1)
  }

  // ---------------------------------------------------------------------------------------
  // The list operations

  /** `addProject`: the payload with `id` set to the old length plus one, appended; an `id` in
      the payload is overridden. */
  function Added(ps: seq<Project>, data: Project): (r: seq<Project>)
    ensures |r| == |ps| + 1 && r[..|ps|] == ps
    ensures r[|ps|].id == |ps| + 1
    ensures r[|ps|] == data.(id := |ps| + 1)
  {
    ps + [data.(id := |ps| + 1)]
  }

  /** `removeProject`: `splice` at the first record with the identifier, when there is one.
      The record there goes, all others stay in their relative order. */
  function Removed(ps: seq<Project>, id: int): (r: seq<Project>)
    ensures FindIndex(ps, id).None? ==> r == ps
    ensures FindIndex(ps, id).Some? ==>
      var i := FindIndex(ps, id).value;
      && |r| == |ps| - 1
      && (forall j :: 0 <= j < i ==> r[j] == ps[j])
      && (forall j :: i <= j < |r| ==> r[j] == ps[j + 1])
      && multiset(r) + multiset{ps[i]} == multiset(ps)
  {
    match FindIndex(ps, id)
    case None => ps
    case Some(i) =>
      assert ps == ps[..i] + [ps[i]] + ps[i + 1..];
      ps[..i] + ps[i + 1..]
  }

  /** `updateProject`: the first record with the identifier is replaced by its merge with the
      payload; every other record and the length stay as they are. */
  function Updated(ps: seq<Project>, id: int, u: ProjectUpdate): (r: seq<Project>)
    ensures |r| == |ps|
    ensures FindIndex(ps, id).None? ==> r == ps
    ensures FindIndex(ps, id).Some? ==>
      var i := FindIndex(ps, id).value;
      && r[i] == Merge(ps[i], u)
      && forall j :: 0 <= j < |ps| && j != i ==> r[j] == ps[j]
  {
    match FindIndex(ps, id)
    case None => ps
    case Some(i) => ps[i := Merge(ps[i], u)]
  }

  /** An update with the empty payload leaves the list identical. */
  lemma UpdateNoChange(ps: seq<Project>, id: int)
    ensures Updated(ps, id, NoChange) == ps
  {
    if FindIndex(ps, id).Some? {
      MergeNoChange(ps[FindIndex(ps, id).value]);
    }
  }

  /** An update may give the record a new identifier; if the old one was unique, the record
      can then no longer be found under it. */
  lemma UpdateCanRenumber(ps: seq<Project>, id: int, u: ProjectUpdate)
    requires UniqueIds(ps) && FindIndex(ps, id).Some?
    requires u.id.Some? && u.id.value != id
    ensures FindIndex(Updated(ps, id, u), id).None?
  {
  }

  // ---------------------------------------------------------------------------------------
  // Identifiers

  /** The identifiers are 1, 2, ..., n in list order. */
  predicate SequentialIds(ps: seq<Project>) {
    forall i :: 0 <= i < |ps| ==> ps[i].id == i + 1
  }

  predicate UniqueIds(ps: seq<Project>) {
    forall i, j :: 0 <= i < j < |ps| ==> ps[i].id != ps[j].id
  }

  /** Adding each payload in turn. */
  function AddAll(ps: seq<Project>, payloads: seq<Project>): (r: seq<Project>)
    ensures |r| == |ps| + |payloads|
    decreases payloads
  {
    if payloads == [] then ps else AddAll(Added(ps, payloads[0]), payloads[1..])
  }

  /** Starting from identifiers 1..n, any number of adds keeps them exactly 1..n+k. */
  lemma {:induction false} AddsKeepSequentialIds(ps: seq<Project>, payloads: seq<Project>)
    requires SequentialIds(ps)
    ensures SequentialIds(AddAll(ps, payloads))
    ensures UniqueIds(AddAll(ps, payloads))
    decreases payloads
  {
    if payloads != [] {
      AddsKeepSequentialIds(Added(ps, payloads[0]), payloads[1..]);
    }
  }

  /** Identifiers are not an invariant of the store: removing any record but the last from a
      list numbered 1..n and then adding one hands out n again while the record numbered n is
      still there. */
  lemma RemoveThenAddDuplicates(ps: seq<Project>, id: int, data: Project)
    requires SequentialIds(ps) && 1 <= id < |ps|
    ensures !UniqueIds(Added(Removed(ps, id), data))
  {
    assert ps[id - 1].id == id;
    var rest := Removed(ps, id);
    var r := Added(rest, data);
    assert r[|rest| - 1] == ps[|ps| - 1];
    assert r[|rest|].id == |ps|;
  }

  /** No record after a record with `id` has `id` again. */
  predicate OccursAtMostOnce(ps: seq<Project>, id: int) {
    forall i, j :: 0 <= i < j < |ps| && ps[i].id == id ==> ps[j].id != id
  }

  /** A second removal of the same identifier does nothing exactly when at most one record
      carries it (in particular whenever identifiers are unique). */
  lemma RemoveTwice(ps: seq<Project>, id: int)
    ensures Removed(Removed(ps, id), id) == Removed(ps, id) <==> OccursAtMostOnce(ps, id)
    ensures UniqueIds(ps) ==> Removed(Removed(ps, id), id) == Removed(ps, id)
  {
    var r := Removed(ps, id);
    if OccursAtMostOnce(ps, id) {
      if FindIndex(ps, id).Some? {
        var i := FindIndex(ps, id).value;
        forall j | 0 <= j < |r| ensures r[j].id != id {
          if j >= i { assert r[j] == ps[j + 1]; }
        }
      }
    } else {
      var i, j :| 0 <= i < j < |ps| && ps[i].id == id && ps[j].id == id;
      RemoveTwiceWithDuplicates(ps, i, j);
    }
  }

  /** When two records carry the identifier, a second removal takes the other one. */
  lemma RemoveTwiceWithDuplicates(ps: seq<Project>, i: int, j: int)
    requires 0 <= i < j < |ps| && ps[i].id == ps[j].id
    ensures |Removed(Removed(ps, ps[i].id), ps[i].id)| == |ps| - 2
  {
    var id := ps[i].id;
    var k := FindIndex(ps, id).value;
    var r := Removed(ps, id);
    assert r[j - 1] == ps[j];
  }

  // ---------------------------------------------------------------------------------------
  // saveProject

  /** The raw values of the project form's fields. */
  datatype ProjectForm = ProjectForm(
    title: string,
    description: string,
    image: string,
    technologies: string,
    github: string,
    live: string)

  const PlaceholderPrefix: string := "https://via.placeholder.com/400x250/6366f1/ffffff?text="

  /** The image address used when the form leaves the image blank: the placeholder service
      with the title, URI-encoded, as its caption. */
  function PlaceholderImage(title: string): (url: string)
    ensures url == PlaceholderPrefix + Uri.EncodeURIComponent(title)
    ensures |url| >= |PlaceholderPrefix| && url[..|PlaceholderPrefix|] == PlaceholderPrefix
    ensures forall i :: |PlaceholderPrefix| <= i < |url| ==> Uri.Unreserved(url[i]) || url[i] == '%' || Uri.UpperHex(url[i])
  {
    PlaceholderPrefix + Uri.EncodeURIComponent(title)
  }

  /** The record `saveProject` pushes: trimmed fields, the placeholder image when the image
      field is blank, and the parsed technology list. */
  function FromForm(form: ProjectForm, id: int): (p: Project)
    ensures p.id == id
    ensures p.title == Trim(form.title) && p.description == Trim(form.description)
    ensures Trimmed(p.title) && Trimmed(p.description)
    ensures p.github == Some(Trim(form.github)) && p.live == Some(Trim(form.live))
    ensures Trimmed(p.github.value) && Trimmed(p.live.value)
    ensures Trim(form.image) != [] ==> p.image == Trim(form.image)
    ensures Trim(form.image) == [] ==> p.image == PlaceholderImage(Trim(form.title))
    ensures p.technologies == ParseTechnologies(form.technologies)
    ensures forall i :: 0 <= i < |p.technologies| ==> p.technologies[i] != [] && Trimmed(p.technologies[i])
    ensures |p.technologies| <= Count(form.technologies, ',') + 1
  {
    var title := Trim(form.title);
    var image := Trim(form.image);
    Project(
      id, title, Trim(form.description),
      if image != [] then image else PlaceholderImage(title),
      ParseTechnologies(form.technologies),
      Some(Trim(form.github)), Some(Trim(form.live)))
  }

  /** `saveProject` numbers its record exactly as `addProject` does. */
  lemma SaveIsAdd(ps: seq<Project>, form: ProjectForm, anyId: int)
    ensures ps + [FromForm(form, |ps| + 1)] == Added(ps, FromForm(form, anyId))
  {
  }

  /** The example of a two-project store receiving a form whose technology field is
      "A, B, A": the record gets identifier 3 and keeps the duplicate token. */
  lemma SaveExample(p1: Project, p2: Project, title: string, description: string)
    ensures var form := ProjectForm(title, description, "", "A, B, A", "", "");
      var r := Added([p1, p2], FromForm(form, 0));
      |r| == 3 && r[2].id == 3 && r[2].technologies == ["A", "B", "A"]
  {
    ParseExample();
  }
}
