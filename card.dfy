/**
 * One directory card (components/SupervisorCard.tsx): the drag-and-drop
 * target for badges, the timed badge removal, the bio rendering, and the
 * export of the card as a PNG image.
 *
 * The card's React state is the fields of `SupervisorCard`. The two
 * callbacks it receives (`onBadgeDrop`, `onBadgeRemove`) are recorded as a
 * log of calls, and what the export leaves in the document (a download, an
 * error notice) as a log of effects. Timers and promises become explicit
 * steps: each `await` in the export ends one method and the step that
 * resumes it is another, so other events may run in between, as they may in
 * the browser.
 */
module Card {
  import opened Wrappers
  import opened JsString

  datatype Badge = Badge(id: string, src: string, alt: string)

  /** A bio is either one block of text or a list of paragraphs. */
  datatype Bio = Text(text: string) | Paragraphs(paragraphs: seq<string>)

  datatype Supervisor = Supervisor(
    name: string,
    title: string,
    email: string,
    phone: Option<string>,
    specialisation: Option<string>,
    bio: Option<Bio>,
    photoUrl: Option<string>,
    badges: seq<Badge>)

  /** One rendered `<p>`: the React key it carries (only list items get one) and its text. */
  datatype Paragraph = Paragraph(key: Option<nat>, text: string)

  /** `renderBio`: one paragraph for a string, one per entry, keyed by index, for a list. */
  function RenderBio(b: Bio): (ps: seq<Paragraph>)
  {
    match b
    case Text(t) => [Paragraph(None, t)]
    case Paragraphs(ps) => seq(|ps|, i requires 0 <= i < |ps| => Paragraph(Some(i), ps[i]))
  }

  /** The bio's paragraphs as the reader sees them: a single string is one paragraph. */
  function BioParagraphs(b: Bio): (ps: seq<string>)
  {
    match b
    case Text(t) => [t]
    case Paragraphs(ps) => ps
  }

  /**
   * Every paragraph of the bio is rendered, once and in order, and the keys
   * React sees within one list are pairwise distinct.
   */
  lemma RenderBioFaithful(b: Bio)
    ensures |RenderBio(b)| == |BioParagraphs(b)|
    ensures forall i :: 0 <= i < |RenderBio(b)| ==> RenderBio(b)[i].text == BioParagraphs(b)[i]
    ensures b.Paragraphs? ==> forall i, j :: 0 <= i < j < |RenderBio(b)| ==> RenderBio(b)[i].key != RenderBio(b)[j].key
  {
  }

  /**
   * `supervisor.bio && (...)`: the bio block, and with it the element with
   * class `supervisor-bio`, exists when the bio is a non-empty string or a
   * list (an empty list is still truthy).
   */
  predicate BioRendered(s: Supervisor)
  {
    s.bio.Some? && (s.bio.value.Text? ==> s.bio.value.text != "")
  }

  /** The download name: `${name.replace(/\s+/g, '-')}-profile.png`. */
  function ProfileFileName(name: string): (f: string)
  {
    DashWhitespaceRuns(name) + "-profile.png"
  }

  /**
   * The file name ends with `-profile.png`, the part before it holds no
   * whitespace and is no longer than the name, and a name without
   * whitespace is used verbatim.
   */
  lemma ProfileFileNameShape(name: string)
    ensures var f := ProfileFileName(name);
      && |f| >= 12 && f[|f| - 12..] == "-profile.png"
      && |f| - 12 <= |name|
      && NoWhitespace(f[..|f| - 12])
      && (NoWhitespace(name) ==> f == name + "-profile.png")
  {
    var f := ProfileFileName(name);
    assert f[..|f| - 12] == DashWhitespaceRuns(name);
    DashedHasNoWhitespace(name);
    if NoWhitespace(name) {
      DashedKeepsWhitespaceFree(name);
    }
  }

  /** A call of one of the card's callback props, with its arguments. */
  datatype Call =
    | BadgeDrop(supervisorEmail: string, droppedBadgeId: string)
    | BadgeRemove(supervisorEmail: string, badgeIdToRemove: string)

  /**
   * How the `try` block of the export ends: `html2canvas` rejects (before
   * the revert at lines 121-130), `canvas.toDataURL` throws (after it), or
   * the image is encoded and the download link is clicked.
   */
  datatype CaptureOutcome = Rejected | EncodeFailed | Encoded

  /** What an export leaves behind: a started download, or the error notice. */
  datatype Effect = Download(fileName: string) | CaptureErrorNotice

  /**
   * Where `handleDownloadProfile` is suspended. `collapsedSidebar` is the
   * source's `wasSidebarCollapsed` (true when this export added
   * `sidebar-collapsed`), `expandedBio` its `wasBioCollapsed`.
   */
  datatype ExportPhase =
    | NotExporting
    | AwaitingSidebar                          // the 350 ms wait after collapsing the sidebar
    | AwaitingBio(collapsedSidebar: bool)      // the 100 ms wait after expanding the bio
    | Capturing(collapsedSidebar: bool, expandedBio: bool)  // awaiting html2canvas

  /** A snapshot of a card's mutable state. */
  datatype CardState = CardState(
    showBio: bool,
    isDragOver: bool,
    isDownloading: bool,
    showRemoveBadgeMessage: bool,
    pendingRemovals: seq<string>,
    phase: ExportPhase,
    calls: seq<Call>,
    effects: seq<Effect>)

  /** The page layout the export looks up in the document; shared by every card. */
  class Layout {
    /** Whether the document has both a `.main-layout` and a `.sidebar` element. */
    const present: bool
    /** Whether `.main-layout` carries the class `sidebar-collapsed`. */
    var sidebarCollapsed: bool

    constructor (present: bool, sidebarCollapsed: bool)
      ensures this.present == present && this.sidebarCollapsed == sidebarCollapsed
    {
      this.present := present;
      this.sidebarCollapsed := sidebarCollapsed;
    }
  }

  class SupervisorCard {
    const supervisor: Supervisor
    /** Whether `cardRef.current` is set, i.e. the card is mounted. */
    const hasCardRef: bool
    const layout: Layout

    var showBio: bool
    var isDragOver: bool
    var isDownloading: bool
    var showRemoveBadgeMessage: bool
    /** Badge ids of clicks whose removal timer has not fired yet, oldest first. */
    var pendingRemovals: seq<string>
    var phase: ExportPhase
    var calls: seq<Call>
    var effects: seq<Effect>

    function State(): (st: CardState)
      reads this
    {
      CardState(showBio, isDragOver, isDownloading, showRemoveBadgeMessage,
                pendingRemovals, phase, calls, effects)
    }

    /**
     * The busy flag (and with it the disabled button) is set exactly while an
     * export is in flight; the "Badge removed!" message is shown only while a
     * removal is pending; every callback call names this card's supervisor.
     */
    ghost predicate Valid()
      reads this
    {
      && (isDownloading <==> !phase.NotExporting?)
      && (showRemoveBadgeMessage ==> pendingRemovals != [])
      && (forall c :: c in calls ==> c.supervisorEmail == supervisor.email)
      && (forall i :: 0 <= i < |pendingRemovals| ==> HasBadge(pendingRemovals[i]))
      && (forall c :: c in calls && c.BadgeRemove? ==> HasBadge(c.badgeIdToRemove))
    }

    /** `badgeId` is the id of one of the badges the card renders (lines 209-215). */
    predicate HasBadge(badgeId: string)
    {
      exists b :: b in supervisor.badges && b.id == badgeId
    }

    constructor (supervisor: Supervisor, hasCardRef: bool, layout: Layout)
      ensures Valid()
      ensures this.supervisor == supervisor && this.hasCardRef == hasCardRef && this.layout == layout
      ensures State() == CardState(false, false, false, false, [], NotExporting, [], [])
    {
      this.supervisor := supervisor;
      this.hasCardRef := hasCardRef;
      this.layout := layout;
      showBio, isDragOver, isDownloading, showRemoveBadgeMessage := false, false, false, false;
      pendingRemovals, phase, calls, effects := [], NotExporting, [], [];
    }

    /** `handleDragOver`: the card highlights as a drop target. */
    method HandleDragOver()
      requires Valid()
      modifies this
      ensures Valid()
      ensures State() == old(State()).(isDragOver := true)
    {
      isDragOver := true;
    }

    /** `handleDragLeave`: the highlight goes away. */
    method HandleDragLeave()
      requires Valid()
      modifies this
      ensures Valid()
      ensures State() == old(State()).(isDragOver := false)
    {
      isDragOver := false;
    }

    /**
     * `handleDrop`: the highlight goes away, and `onBadgeDrop` is called with
     * this card's email once, if the payload's `text/plain` entry (the empty
     * string when absent) is not empty.
     */
    method HandleDrop(droppedBadgeId: string)
      requires Valid()
      modifies this
      ensures Valid()
      ensures State() == old(State()).(isDragOver := false,
        calls := old(calls) + if droppedBadgeId != "" then [BadgeDrop(supervisor.email, droppedBadgeId)] else [])
    {
      isDragOver := false;
      if droppedBadgeId != "" {
        calls := calls + [BadgeDrop(supervisor.email, droppedBadgeId)];
      }
    }

    /**
     * `handleBadgeClick`, wired to the click of each rendered badge: shows
     * "Badge removed!" and starts a removal timer for that badge.
     */
    method HandleBadgeClick(badgeId: string)
      requires Valid() && HasBadge(badgeId)
      modifies this
      ensures Valid()
      ensures State() == old(State()).(showRemoveBadgeMessage := true,
                                       pendingRemovals := old(pendingRemovals) + [badgeId])
    {
      showRemoveBadgeMessage := true;
      pendingRemovals := pendingRemovals + [badgeId];
    }

    /**
     * The oldest removal timer fires (all use the same delay, so they fire in
     * the order they were started): `onBadgeRemove` is called once for its
     * badge and the message is hidden.
     */
    method FireBadgeRemovalTimer()
      requires Valid() && pendingRemovals != []
      modifies this
      ensures Valid()
      ensures State() == old(State()).(
        calls := old(calls) + [BadgeRemove(supervisor.email, old(pendingRemovals)[0])],
        showRemoveBadgeMessage := false,
        pendingRemovals := old(pendingRemovals)[1..])
    {
      calls := calls + [BadgeRemove(supervisor.email, pendingRemovals[0])];
      showRemoveBadgeMessage := false;
      pendingRemovals := pendingRemovals[1..];
    }

    /** A click on "Read more" / "Show less", which exists only while the bio is rendered. */
    method ToggleBio()
      requires Valid() && BioRendered(supervisor)
      modifies this
      ensures Valid()
      ensures State() == old(State()).(showBio := !old(showBio))
    {
      showBio := !showBio;
    }

    /**
     * Lines 105-112 of the export: if the bio block is rendered with class
     * `bio-hide` (that is, `showBio` is false), show it and wait for a
     * render; otherwise go straight to the capture. Runs only inside an
     * export, from `HandleDownloadProfile` and `ResumeAfterSidebar`.
     */
    method ExpandBioForCapture(collapsedSidebar: bool)
      requires isDownloading
      modifies this
      ensures State() == old(State()).(
        showBio := old(showBio) || BioRendered(supervisor),
        phase := if BioRendered(supervisor) && !old(showBio) then AwaitingBio(collapsedSidebar)
                 else Capturing(collapsedSidebar, false))
    {
      if BioRendered(supervisor) && !showBio {
        showBio := true;
        phase := AwaitingBio(collapsedSidebar);
      } else {
        phase := Capturing(collapsedSidebar, false);
      }
    }

    /**
     * A click on the camera button, running `handleDownloadProfile` up to its
     * first `await`. The button is disabled while `isDownloading`, so such a
     * click does nothing; so does one on an unmounted card (only a console
     * message). Otherwise the card turns busy, and the sidebar is collapsed
     * if present and expanded (then the export waits for the transition) or
     * the bio is expanded as in `ExpandBioForCapture`.
     */
    method HandleDownloadProfile()
      requires Valid()
      modifies this, layout
      ensures Valid()
      ensures old(isDownloading) || !hasCardRef ==>
        State() == old(State()) && layout.sidebarCollapsed == old(layout.sidebarCollapsed)
      ensures !old(isDownloading) && hasCardRef ==>
        var collapse := layout.present && !old(layout.sidebarCollapsed);
        var expand := BioRendered(supervisor) && !old(showBio);
        && layout.sidebarCollapsed == (old(layout.sidebarCollapsed) || layout.present)
        && State() == old(State()).(
             isDownloading := true,
             showBio := old(showBio) || (!collapse && expand),
             phase := if collapse then AwaitingSidebar
                      else if expand then AwaitingBio(false)
                      else Capturing(false, false))
    {
      if isDownloading || !hasCardRef {
        return;
      }
      isDownloading := true;
      if layout.present && !layout.sidebarCollapsed {
        layout.sidebarCollapsed := true;
        phase := AwaitingSidebar;
        return;
      }
      ExpandBioForCapture(false);
    }

    /** The sidebar transition delay has passed: the export goes on to the bio. */
    method ResumeAfterSidebar()
      requires Valid() && phase.AwaitingSidebar?
      modifies this
      ensures Valid()
      ensures State() == old(State()).(
        showBio := old(showBio) || BioRendered(supervisor),
        phase := if BioRendered(supervisor) && !old(showBio) then AwaitingBio(true)
                 else Capturing(true, false))
    {
      ExpandBioForCapture(true);
    }

    /** The render delay after expanding the bio has passed: the capture starts. */
    method ResumeAfterBio()
      requires Valid() && phase.AwaitingBio?
      modifies this
      ensures Valid()
      ensures State() == old(State()).(phase := Capturing(old(phase).collapsedSidebar, true))
    {
      phase := Capturing(phase.collapsedSidebar, true);
    }

    /**
     * The capture settles. Unless `html2canvas` rejected, the bio is hidden
     * again if the export showed it and the sidebar class is removed if the
     * export added it (lines 121-130); then the image is encoded and the
     * download started (133-138). A rejection, or a `toDataURL` that throws
     * after the revert, shows the error notice instead of downloading
     * (140-161); after a rejection neither temporary change is undone. On
     * every exit the card stops being busy (163-165).
     */
    method CaptureSettled(outcome: CaptureOutcome)
      requires Valid() && phase.Capturing?
      modifies this, layout
      ensures Valid()
      ensures layout.sidebarCollapsed ==
        if !outcome.Rejected? && old(phase).collapsedSidebar then false else old(layout.sidebarCollapsed)
      ensures State() == old(State()).(
        isDownloading := false,
        phase := NotExporting,
        showBio := if !outcome.Rejected? && old(phase).expandedBio then false else old(showBio),
        effects := old(effects) + [if outcome.Encoded? then Download(ProfileFileName(supervisor.name)) else CaptureErrorNotice])
    {
      if !outcome.Rejected? {
        if phase.expandedBio {
          showBio := false;
        }
        if phase.collapsedSidebar {
          layout.sidebarCollapsed := false;
        }
      }
      if outcome.Encoded? {
        effects := effects + [Download(ProfileFileName(supervisor.name))];
      } else {
        effects := effects + [CaptureErrorNotice];
      }
      isDownloading := false;
      phase := NotExporting;
    }

    /**
     * A whole export with no other event in between. When the capture gets
     * past `html2canvas`, the bio and the sidebar end as they were, and
     * exactly one download is emitted if the image is encoded, one error
     * notice if encoding throws. When `html2canvas` rejects, exactly one
     * error notice is emitted and the bio stays shown and the sidebar
     * collapsed if the export changed them. Drag state, removal timers and
     * callback calls are untouched.
     */
    method RunDownloadProfile(outcome: CaptureOutcome)
      requires Valid()
      modifies this, layout
      ensures Valid()
      ensures old(isDownloading) || !hasCardRef ==>
        State() == old(State()) && layout.sidebarCollapsed == old(layout.sidebarCollapsed)
      ensures !old(isDownloading) && hasCardRef && !outcome.Rejected? ==>
        && layout.sidebarCollapsed == old(layout.sidebarCollapsed)
        && State() == old(State()).(effects := old(effects) +
             [if outcome.Encoded? then Download(ProfileFileName(supervisor.name)) else CaptureErrorNotice])
      ensures !old(isDownloading) && hasCardRef && outcome.Rejected? ==>
        && layout.sidebarCollapsed == (old(layout.sidebarCollapsed) || layout.present)
        && State() == old(State()).(
             showBio := old(showBio) || BioRendered(supervisor),
             effects := old(effects) + [CaptureErrorNotice])
    {
      if isDownloading || !hasCardRef {
        return;
      }
      HandleDownloadProfile();
      if phase.AwaitingSidebar? {
        ResumeAfterSidebar();
      }
      if phase.AwaitingBio? {
        ResumeAfterBio();
      }
      CaptureSettled(outcome);
    }
  }
}
