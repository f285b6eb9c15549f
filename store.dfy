/** The project store behind `window.portfolioAPI` and the project form: a list of records
    changed in place, re-rendered into the projects container after every change, and a log of
    the notifications shown. */
module Store {
  import opened Wrappers
  import opened Projects
  import opened Rendering

  /** The two notification styles the store uses. */
  datatype Kind = Success | Info

  datatype Notice = Notice(message: string, kind: Kind)

  const AddedNotice := Notice("Project added successfully!", Success)
  const RemovedNotice := Notice("Project removed successfully!", Info)
  const UpdatedNotice := Notice("Project updated successfully!", Success)

  /** The browser window; only its inner width matters here. */
  class Window {
    var width: int

    constructor (width: int)
      ensures this.width == width
    {
      this.width := width;
    }
  }

  class ProjectStore {
    var projects: seq<Project>
    /** Every notification shown so far, oldest first. */
    var notices: seq<Notice>
    /** The projects container; `null` when the page has none. */
    const container: Container?
    const window: Window

    constructor (initial: seq<Project>, container: Container?, window: Window)
      ensures projects == initial && notices == []
      ensures this.container == container && this.window == window
    {
      projects := initial;
      notices := [];
      this.container := container;
      this.window := window;
    }

    /** The container shows exactly the current records, as cards for the current width, all
        visible. */
    ghost predicate Shown()
      reads this, container, window
    {
      container != null ==>
        container.cards == RenderCards(projects, window.width) && container.visible == AllShown(|projects|)
    }

    /** `renderProjects`: clear the container and append one card per record, in order; do
        nothing without a container. */
    method Render()
      modifies container
      ensures Shown()
      ensures container != null ==> container.Valid()
    {
      if container == null {
        return;
      }
      container.cards := [];
      container.visible := [];
      var i := 0;
      while i < |projects|
        invariant 0 <= i <= |projects|
        invariant |container.cards| == i && |container.visible| == i
        invariant forall k :: 0 <= k < i ==> container.cards[k] == CreateCard(projects[k], k, window.width)
        invariant forall k :: 0 <= k < i ==> container.visible[k]
      {
        container.cards := container.cards + [CreateCard(projects[i], i, window.width)];
        container.visible := container.visible + [true];
        i := i + 1;
      }
    }

    /** `portfolioAPI.addProject(projectData)` */
    method AddProject(data: Project)
      modifies this, container
      ensures projects == Added(old(projects), data)
      ensures notices == old(notices) + [AddedNotice]
      ensures Shown()
    {
      projects := projects + [data.(id := |projects| + 1)];
      Render();
      notices := notices + [AddedNotice];
    }

    /** `portfolioAPI.removeProject(projectId)`: an unknown identifier changes nothing, shows no
        notification and leaves the container alone. */
    method RemoveProject(id: int)
      modifies this, container
      ensures projects == Removed(old(projects), id)
      ensures FindIndex(old(projects), id).None? ==>
        notices == old(notices) && (container != null ==> unchanged(container))
      ensures FindIndex(old(projects), id).Some? ==>
        notices == old(notices) + [RemovedNotice] && Shown()
    {
      var index := FindIndex(projects, id);
      if index.Some? {
        var i := index.value;
        projects := projects[..i] + projects[i + 1..];
        Render();
        notices := notices + [RemovedNotice];
      }
    }

    /** `portfolioAPI.updateProject(projectId, updateData)`: the first record with the
        identifier becomes its merge with the payload. */
    method UpdateProject(id: int, update: ProjectUpdate)
      modifies this, container
      ensures projects == Updated(old(projects), id, update)
      ensures FindIndex(old(projects), id).None? ==>
        notices == old(notices) && (container != null ==> unchanged(container))
      ensures FindIndex(old(projects), id).Some? ==>
        notices == old(notices) + [UpdatedNotice] && Shown()
    {
      var index := FindIndex(projects, id);
      if index.Some? {
        var i := index.value;
        projects := projects[i := Merge(projects[i], update)];
        Render();
        notices := notices + [UpdatedNotice];
      }
    }

    /** `portfolioAPI.getProjects()`: the records of the store, in order. The source returns
        a shallow copy: reordering or resizing it leaves the store alone, but the records (and
        their technology arrays) are shared with the store. */
    method GetProjects() returns (r: seq<Project>)
      ensures r == projects
    {
      r := projects;
    }

    /** `saveProject()`: the record built from the form gets the old length plus one as its
        identifier, exactly as `addProject` would give it. */
    method SaveProject(form: ProjectForm)
      modifies this, container
      ensures projects == old(projects) + [FromForm(form, |old(projects)| + 1)]
      ensures projects == Added(old(projects), FromForm(form, 0))
      ensures notices == old(notices) + [AddedNotice]
      ensures Shown()
    {
      SaveIsAdd(projects, form, 0);
      projects := projects + [FromForm(form, |projects| + 1)];
      Render();
      notices := notices + [AddedNotice];
    }

    /** `portfolioAPI.refreshLayout()`: the cards are rebuilt for the current window width,
        which also makes every card visible again whatever filter was applied. */
    method RefreshLayout()
      modifies container
      ensures Shown()
    {
      Render();
    }
  }
}
