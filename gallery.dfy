/** The public gallery (src/components/Projects/Projects.tsx): the loaded
    list, the active filter and the lightbox selection. The component keeps
    them as three state values it replaces wholesale; here each handler is a
    function from the old state to the new one. */
module Gallery {
  import opened Common
  import opened Api
  import opened Defaults

  datatype FilterChoice = All | Images | Videos

  /** `project.type || "image"`: a missing or empty type counts as
      "image". */
  function EffectiveKind(p: Project): (k: string)
    ensures k != ""
    ensures p.kind.Some? && p.kind.value != "" ==> k == p.kind.value
  {
    if p.kind.Some? && p.kind.value != "" then p.kind.value else "image"
  }

  /** `filter === "all" || type === filter` */
  predicate Shown(choice: FilterChoice, p: Project)
  {
    match choice
    case All => true
    case Images => EffectiveKind(p) == "image"
    case Videos => EffectiveKind(p) == "video"
  }

  /** An entry whose type is neither "image" nor "video" (after the
      default): only the "all" view shows it. */
  predicate InNeitherView(p: Project)
  {
    EffectiveKind(p) != "image" && EffectiveKind(p) != "video"
  }

  /** `filteredProjects`: the entries whose effective type matches the
      filter, in their loaded order; "all" keeps the list as it is. */
  function Filtered(ps: seq<Project>, choice: FilterChoice): (r: seq<Project>)
    ensures choice == Images ==> forall p :: p in r <==> p in ps && EffectiveKind(p) == "image"
    ensures choice == Videos ==> forall p :: p in r <==> p in ps && EffectiveKind(p) == "video"
    ensures forall p :: p in r <==> p in ps && Shown(choice, p)
    ensures IsSubsequence(r, ps)
    ensures choice == All ==> r == ps
  {
    var keep := (p: Project) => Shown(choice, p);
    FilterIsSubsequence(keep, ps);
    if choice == All then FilterAll(keep, ps); Filter(keep, ps) else Filter(keep, ps)
  }

  /** The image view, the video view and the entries of any other type
      together hold every entry exactly once. */
  lemma FilterViewsPartition(ps: seq<Project>)
    ensures multiset(Filtered(ps, Images)) + multiset(Filtered(ps, Videos)) + multiset(Filter(InNeitherView, ps))
            == multiset(ps)
  {
    FilterPartition3((p: Project) => Shown(Images, p), (p: Project) => Shown(Videos, p), InNeitherView, ps);
  }

  /** When every entry is an image or a video, the two typed views hold
      every entry exactly once. */
  lemma FilterViewsCover(ps: seq<Project>)
    requires forall p :: p in ps ==> !InNeitherView(p)
    ensures multiset(Filtered(ps, Images)) + multiset(Filtered(ps, Videos)) == multiset(ps)
  {
    FilterViewsPartition(ps);
    FilterNone(InNeitherView, ps);
  }

  /** An entry typed "Video" appears in neither typed view. */
  lemma UnknownKindHidden(p: Project)
    requires p.kind == Some("Video")
    ensures Filtered([p], Images) == [] && Filtered([p], Videos) == []
  {
    assert p !in Filtered([p], Images) && p !in Filtered([p], Videos);
  }

  // ---------------------------------------------------------------------------
  // Lightbox navigation over `selectedImageIndex`
  // ---------------------------------------------------------------------------

  /** `(i + 1) % k`, the step `handleNext` and ArrowRight take. */
  function NextIndex(i: nat, k: nat): (j: nat)
    requires k > 0
    ensures j < k
    ensures i < k - 1 ==> j == i + 1
    ensures i == k - 1 ==> j == 0
  {
    (i + 1) % k
  }

  /** `(i - 1 + k) % k`, the step `handlePrevious` and ArrowLeft take. */
  function PreviousIndex(i: nat, k: nat): (j: nat)
    requires k > 0
    ensures j < k
    ensures 0 < i <= k ==> j == i - 1
    ensures i == 0 ==> j == k - 1
  {
    (i - 1 + k) % k
  }

  /** Within range, a step forward and a step back undo each other. */
  lemma NextPreviousInverse(i: nat, k: nat)
    requires i < k
    ensures PreviousIndex(NextIndex(i, k), k) == i
    ensures NextIndex(PreviousIndex(i, k), k) == i
  {
  }

  /** `k` steps forward from any index in range come back to it. */
  lemma {:induction false} NextCycles(i: nat, k: nat, steps: nat)
    requires i < k
    ensures Iterate(i, k, steps) == (i + steps) % k
  {
    if steps > 0 {
      NextCycles(i, k, steps - 1);
      var j := Iterate(i, k, steps - 1);
      assert j == (i + steps - 1) % k;
      assert NextIndex(j, k) == (j + 1) % k;
      ModSucc(i + steps - 1, k);
    }
  }

  lemma ModSucc(n: nat, k: nat)
    requires k > 0
    ensures ((n % k) + 1) % k == (n + 1) % k
  {
    var q, r := n / k, n % k;
    DivMod(n, k);
    if r + 1 < k {
      ModUnique(r + 1, 0, r + 1, k);
      ModUnique(n + 1, q, r + 1, k);
    } else {
      ModUnique(r + 1, 1, 0, k);
      MulSucc(q, k);
      ModUnique(n + 1, q + 1, 0, k);
    }
  }

  lemma DivMod(n: int, k: int)
    requires k > 0
    ensures n == (n / k) * k + n % k && 0 <= n % k < k
  {
  }

  lemma MulSucc(q: int, k: int)
    ensures (q + 1) * k == q * k + k
  {
  }

  lemma ModUnique(a: int, q: int, r: int, k: int)
    requires k > 0 && 0 <= r < k && a == q * k + r
    ensures a % k == r
  {
    var q', r' := a / k, a % k;
    assert a == q' * k + r';
    assert (q - q') * k == r' - r;
    if q - q' >= 1 {
      MulAtLeast(q - q', k);
    } else if q' - q >= 1 {
      MulAtLeast(q' - q, k);
    } else {
      assert q == q';
    }
  }

  lemma MulAtLeast(d: int, k: int)
    requires d >= 1 && k > 0
    ensures d * k >= k
  {
  }

  /** `steps` presses of "next" from index `i`. */
  function Iterate(i: nat, k: nat, steps: nat): (j: nat)
    requires i < k
    ensures j < k
  {
    if steps == 0 then i else NextIndex(Iterate(i, k, steps - 1), k)
  }

  datatype Key = Escape | ArrowLeft | ArrowRight | OtherKey

  /** The keydown listener, attached only while a project is selected; `k`
      is the length of the filtered list. */
  function OnKeyDown(selected: Option<nat>, key: Key, k: nat): (r: Option<nat>)
    ensures selected.None? ==> r.None?
    ensures key == Escape ==> r.None?
    ensures (key == ArrowLeft || key == ArrowRight) && k == 0 ==> r.None?
    ensures key == OtherKey ==> r == selected
    ensures selected.Some? && key == ArrowRight && k > 0 ==> r == Some(NextIndex(selected.value, k))
    ensures selected.Some? && key == ArrowLeft && k > 0 ==> r == Some(PreviousIndex(selected.value, k))
    ensures r.Some? && key != OtherKey ==> r.value < k
  {
    match selected
    case None => None
    case Some(prev) =>
      match key
      case Escape => None
      case ArrowLeft => if k == 0 then None else Some(PreviousIndex(prev, k))
      case ArrowRight => if k == 0 then None else Some(NextIndex(prev, k))
      case OtherKey => selected
  }

  /** `handleNext`: a step forward when something is selected and the list is
      not empty; otherwise nothing changes. */
  function HandleNext(selected: Option<nat>, k: nat): (r: Option<nat>)
    ensures selected.Some? && k > 0 ==> r == Some(NextIndex(selected.value, k))
    ensures !(selected.Some? && k > 0) ==> r == selected
  {
    if selected.Some? && k > 0 then Some(NextIndex(selected.value, k)) else selected
  }

  /** `handlePrevious`: a step back, under the same guard as handleNext. */
  function HandlePrevious(selected: Option<nat>, k: nat): (r: Option<nat>)
    ensures selected.Some? && k > 0 ==> r == Some(PreviousIndex(selected.value, k))
    ensures !(selected.Some? && k > 0) ==> r == selected
  {
    if selected.Some? && k > 0 then Some(PreviousIndex(selected.value, k)) else selected
  }

  /** The buttons and the arrow keys agree wherever a project is selected in
      a non-empty list. */
  lemma ButtonsMatchKeys(selected: Option<nat>, k: nat)
    requires selected.Some? && k > 0
    ensures HandleNext(selected, k) == OnKeyDown(selected, ArrowRight, k)
    ensures HandlePrevious(selected, k) == OnKeyDown(selected, ArrowLeft, k)
  {
  }

  // ---------------------------------------------------------------------------
  // The component as a state machine
  // ---------------------------------------------------------------------------

  datatype GalleryState = GalleryState(projects: seq<Project>, choice: FilterChoice, selected: Option<nat>)

  /** The first render: default projects, filter "all", nothing selected. */
  const Initial: GalleryState := GalleryState(DefaultProjects, All, None)

  /** Clicking one of the three filter buttons. */
  function SelectFilter(st: GalleryState, choice: FilterChoice): (r: GalleryState)
    ensures r.choice == choice && r.selected.None? && r.projects == st.projects
  {
    st.(choice := choice, selected := None)
  }

  /** Clicking the tile at `index` of the filtered list. */
  function OpenAt(st: GalleryState, index: nat): (r: GalleryState)
    ensures r.selected == Some(index) && r.projects == st.projects && r.choice == st.choice
  {
    st.(selected := Some(index))
  }

  /** Clicking the backdrop or the close button. */
  function CloseModal(st: GalleryState): (r: GalleryState)
    ensures r.selected.None? && r.projects == st.projects && r.choice == st.choice
  {
    st.(selected := None)
  }

  function PressKey(st: GalleryState, key: Key): (r: GalleryState)
    ensures r.projects == st.projects && r.choice == st.choice
  {
    st.(selected := OnKeyDown(st.selected, key, |Filtered(st.projects, st.choice)|))
  }

  /** The lightbox's "next" button. */
  function ClickNext(st: GalleryState): (r: GalleryState)
    ensures r.projects == st.projects && r.choice == st.choice
    ensures st.selected.None? ==> r.selected.None?
    ensures st.selected.Some? && st.selected.value < |Filtered(st.projects, st.choice)| ==>
      r.selected == Some(NextIndex(st.selected.value, |Filtered(st.projects, st.choice)|))
  {
    st.(selected := HandleNext(st.selected, |Filtered(st.projects, st.choice)|))
  }

  /** The lightbox's "previous" button. */
  function ClickPrevious(st: GalleryState): (r: GalleryState)
    ensures r.projects == st.projects && r.choice == st.choice
    ensures st.selected.None? ==> r.selected.None?
    ensures st.selected.Some? && st.selected.value < |Filtered(st.projects, st.choice)| ==>
      r.selected == Some(PreviousIndex(st.selected.value, |Filtered(st.projects, st.choice)|))
  {
    st.(selected := HandlePrevious(st.selected, |Filtered(st.projects, st.choice)|))
  }

  /** The project the lightbox shows: none when the selection is empty or
      past the end of the filtered list (`filteredProjects[i]` is then
      undefined and the modal is not rendered). */
  function Current(st: GalleryState): (p: Option<Project>)
    ensures p.Some? <==> st.selected.Some? && st.selected.value < |Filtered(st.projects, st.choice)|
    ensures p.Some? ==> p.value == Filtered(st.projects, st.choice)[st.selected.value]
    ensures p.Some? ==> p.value in st.projects && Shown(st.choice, p.value)
  {
    var fs := Filtered(st.projects, st.choice);
    if st.selected.Some? && st.selected.value < |fs| then Some(fs[st.selected.value]) else None
  }

  /** A selection inside the filtered list stays inside it under every key
      and button, so an open lightbox always has a project to show. */
  lemma NavigationKeepsSelectionValid(st: GalleryState, key: Key)
    requires st.selected.Some? && st.selected.value < |Filtered(st.projects, st.choice)|
    ensures PressKey(st, key).selected.Some? ==> Current(PressKey(st, key)).Some?
    ensures Current(ClickNext(st)).Some? && Current(ClickPrevious(st)).Some?
  {
  }

  /** loadProjects: the server's list when it is non-empty, the defaults
      when it is empty or loading threw. */
  function Load(st: GalleryState, result: LoadResult): (r: GalleryState)
    ensures result.ServerList? && result.items != [] ==> r.projects == result.items
    ensures !(result.ServerList? && result.items != []) ==> r.projects == DefaultProjects
    ensures r.choice == st.choice && r.selected == st.selected
  {
    match result
    case ServerList(items) => if |items| > 0 then st.(projects := items) else st.(projects := DefaultProjects)
    case LoadThrew(_) => st.(projects := DefaultProjects)
  }
}
