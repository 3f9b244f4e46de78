/**
 * The sample-work gallery viewer (`BottomViewer`): the slide list of the open
 * project, the slide index moved by next/prev, click and keyboard, the
 * video/pannable classification of the current slide, and the body scroll lock
 * taken while the viewer is open.
 */
module Gallery {

  datatype Option<T> = None | Some(value: T)

  datatype Category = Real | Samples | Pitch | Graphics

  datatype Project = Project(
    id: string,
    title: string,
    desc: string,
    category: Category,
    images: seq<string>,
    scroll: Option<seq<string>>)

  // ---- Classifying a media reference ----

  const VideoExtensions: seq<string> := [".mp4", ".webm", ".ogg", ".mov"]

  function LowerChar(c: char): char {
    if 'A' <= c <= 'Z' then (c as int - 'A' as int + 'a' as int) as char else c
  }

  /** `toLowerCase`, on ASCII letters. */
  function ToLower(s: string): (r: string)
    ensures |r| == |s| && forall i :: 0 <= i < |s| ==> r[i] == LowerChar(s[i])
  {
    if s == [] then [] else [LowerChar(s[0])] + ToLower(s[1..])
  }

  predicate EndsWith(s: string, suffix: string) {
    |suffix| <= |s| && s[|s| - |suffix|..] == suffix
  }

  /** `exts.some((ext) => s.endsWith(ext))`. */
  function AnyEndsWith(s: string, exts: seq<string>): (r: bool)
    ensures r <==> exists i :: 0 <= i < |exts| && EndsWith(s, exts[i])
    decreases |exts|
  {
    if exts == [] then false
    else EndsWith(s, exts[0]) || AnyEndsWith(s, exts[1..])
  }

  /** A source is a video when, ignoring case, it ends with one of the video extensions. */
  function IsVideo(src: string): (r: bool)
    ensures r <==> exists i :: 0 <= i < |VideoExtensions| && EndsWith(ToLower(src), VideoExtensions[i])
  {
    AnyEndsWith(ToLower(src), VideoExtensions)
  }

  lemma ToLowerIdempotent(s: string)
    ensures ToLower(ToLower(s)) == ToLower(s)
  {
    assert forall i :: 0 <= i < |s| ==> LowerChar(LowerChar(s[i])) == LowerChar(s[i]);
  }

  /** The classification does not depend on letter case. */
  lemma IsVideoIgnoresCase(s: string)
    ensures IsVideo(ToLower(s)) == IsVideo(s)
  {
    ToLowerIdempotent(s);
  }

  lemma UpperCaseVideo()
    ensures IsVideo("a.MOV")
  {
    assert ToLower("a.MOV") == "a.mov";
    assert EndsWith(ToLower("a.MOV"), VideoExtensions[3]);
  }

  lemma GifIsNotVideo()
    ensures !IsVideo("b.gif")
  {
    assert ToLower("b.gif") == "b.gif";
  }

  // ---- The slide list ----

  /** `scroll.filter((s) => !images.includes(s))`. */
  function ScrollExtras(scroll: seq<string>, images: seq<string>): (r: seq<string>)
    ensures |r| <= |scroll|
    ensures forall i :: 0 <= i < |r| ==> r[i] !in images
    decreases |scroll|
  {
    if scroll == [] then []
    else (if scroll[0] in images then [] else [scroll[0]]) + ScrollExtras(scroll[1..], images)
  }

  /** The filter drops every copy of an image and keeps every copy of anything else. */
  lemma {:induction false} ScrollExtrasCount(scroll: seq<string>, images: seq<string>)
    ensures forall x :: multiset(ScrollExtras(scroll, images))[x] ==
                        (if x in images then 0 else multiset(scroll)[x])
    decreases |scroll|
  {
    if scroll != [] {
      ScrollExtrasCount(scroll[1..], images);
      assert scroll == [scroll[0]] + scroll[1..];
    }
  }

  /** The filter keeps the scroll entries in their original order. */
  lemma {:induction false} ScrollExtrasAppend(a: seq<string>, b: seq<string>, images: seq<string>)
    ensures ScrollExtras(a + b, images) == ScrollExtras(a, images) + ScrollExtras(b, images)
    decreases |a|
  {
    if a == [] {
      assert a + b == b;
    } else {
      var head := if a[0] in images then [] else [a[0]];
      assert (a + b)[0] == a[0] && (a + b)[1..] == a[1..] + b;
      assert ScrollExtras(a + b, images) == head + ScrollExtras(a[1..] + b, images);
      ScrollExtrasAppend(a[1..], b, images);
      assert ScrollExtras(a, images) == head + ScrollExtras(a[1..], images);
    }
  }

  function ScrollOf(p: Project): seq<string> {
    if p.scroll.Some? then p.scroll.value else []
  }

  /**
   * The viewer's slides: the images, then the scroll images not already among
   * them. No project, no slides.
   */
  function Slides(project: Option<Project>): (r: seq<string>)
    ensures project.None? ==> r == []
    ensures project.Some? ==>
      var p := project.value;
      |p.images| <= |r| && r[..|p.images|] == p.images &&
      forall x :: multiset(r)[x] == if x in p.images then multiset(p.images)[x] else multiset(ScrollOf(p))[x]
    ensures project.Some? ==>
      r[|project.value.images|..] == ScrollExtras(ScrollOf(project.value), project.value.images)
  {
    if project.None? then []
    else
      var p := project.value;
      ScrollExtrasCount(ScrollOf(p), p.images);
      p.images + (if p.scroll.Some? then ScrollExtras(p.scroll.value, p.images) else [])
  }

  /** Every image and every scroll image is a slide, and nothing else is. */
  lemma SlidesMembers(p: Project, x: string)
    ensures x in Slides(Some(p)) <==> x in p.images || x in ScrollOf(p)
  {
    var r := Slides(Some(p));
    assert x in r <==> x in multiset(r);
  }

  lemma SlidesExample()
    ensures Slides(Some(Project("p", "t", "d", Samples, ["A", "B"], Some(["B", "C"])))) == ["A", "B", "C"]
  {
  }

  // ---- The slide index ----

  /** `(i + 1) % total`; the index is never negative, so JavaScript's `%` agrees with Dafny's. */
  function NextIndex(i: nat, total: nat): (r: nat)
    requires total > 0
    ensures r < total
    ensures i + 1 < total ==> r == i + 1
    ensures i + 1 == total ==> r == 0
  {
    (i + 1) % total
  }

  /** `(i - 1 + total) % total`. */
  function PrevIndex(i: nat, total: nat): (r: nat)
    requires total > 0
    ensures r < total
    ensures 0 < i < total ==> r == i - 1
    ensures i == 0 ==> r == total - 1
  {
    (i - 1 + total) % total
  }

  lemma PrevUndoesNext(i: nat, total: nat)
    requires i < total
    ensures PrevIndex(NextIndex(i, total), total) == i
    ensures NextIndex(PrevIndex(i, total), total) == i
  {
  }

  // ---- The viewer ----

  /**
   * What the viewer's behaviour depends on: the open project (the parent's
   * `active`), the index state cell, the document body's `overflow`, and the
   * value the scroll-lock effect saved when the viewer opened (none while closed).
   */
  datatype ViewerState = ViewerState(
    project: Option<Project>,
    index: nat,
    bodyOverflow: string,
    saved: Option<string>)

  predicate IsOpen(s: ViewerState) {
    s.project.Some?
  }

  /** While open, the body does not scroll and the effect holds the value to restore. */
  predicate ScrollLockHeld(s: ViewerState) {
    (IsOpen(s) <==> s.saved.Some?) && (IsOpen(s) ==> s.bodyOverflow == "hidden")
  }

  function Total(s: ViewerState): nat {
    |Slides(s.project)|
  }

  /** next/prev divide by the slide count: an open project must have a slide. */
  predicate HasSlides(s: ViewerState) {
    IsOpen(s) ==> Total(s) > 0
  }

  /** `slides[index] ?? ""`: the index may be stale, so out of range gives "". */
  function Src(s: ViewerState): (src: string)
    ensures s.index < Total(s) ==> src == Slides(s.project)[s.index]
    ensures Total(s) <= s.index ==> src == ""
  {
    var slides := Slides(s.project);
    if s.index < |slides| then slides[s.index] else ""
  }

  /**
   * `project?.scroll?.includes(src) ?? false`: the shown file is one of the
   * open project's scroll images; a slide in range that is not one of them is
   * one of its plain images.
   */
  predicate IsScrollableShowcase(s: ViewerState)
    ensures IsScrollableShowcase(s) ==> IsOpen(s) && Src(s) in ScrollOf(s.project.value)
    ensures IsOpen(s) && s.index < Total(s) && !IsScrollableShowcase(s) ==> Src(s) in s.project.value.images
  {
    match s.project
    case None => false
    case Some(p) =>
      SlidesMembers(p, Src(s));
      p.scroll.Some? && Src(s) in p.scroll.value
  }

  /** `isVideo(src)`: only a slide actually shown can be a video; a stale index shows "", which is not one. */
  predicate IsCurrentVideo(s: ViewerState)
    ensures IsCurrentVideo(s) ==> IsOpen(s) && s.index < Total(s)
  {
    assert !EndsWith("", VideoExtensions[0]) && !EndsWith("", VideoExtensions[1]);
    assert !EndsWith("", VideoExtensions[2]) && !EndsWith("", VideoExtensions[3]);
    IsVideo(Src(s))
  }

  const Initial := ViewerState(None, 0, "", None)

  /**
   * The parent sets `active`; when the viewer was closed, the effect saves the
   * body overflow and sets it to "hidden". The index is left as it was.
   */
  function AfterOpen(s: ViewerState, p: Project): (r: ViewerState)
    requires ScrollLockHeld(s)
    ensures ScrollLockHeld(r) && IsOpen(r) && r.project == Some(p) && r.index == s.index
    ensures !IsOpen(s) ==> r.saved == Some(s.bodyOverflow)
    ensures IsOpen(s) ==> r.saved == s.saved && r.bodyOverflow == s.bodyOverflow
  {
    if IsOpen(s) then s.(project := Some(p))
    else ViewerState(Some(p), s.index, "hidden", Some(s.bodyOverflow))
  }

  /** The parent clears `active`; the effect cleanup restores the saved overflow. */
  function AfterClose(s: ViewerState): (r: ViewerState)
    requires ScrollLockHeld(s)
    ensures ScrollLockHeld(r) && !IsOpen(r) && r.index == s.index
    ensures IsOpen(s) ==> r.bodyOverflow == s.saved.value
    ensures !IsOpen(s) ==> r == s
  {
    if IsOpen(s) then ViewerState(None, s.index, s.saved.value, None) else s
  }

  function AfterNext(s: ViewerState): (r: ViewerState)
    requires HasSlides(s)
    ensures r.project == s.project && r.bodyOverflow == s.bodyOverflow && r.saved == s.saved
    ensures IsOpen(s) ==> r.index == NextIndex(s.index, Total(s)) && r.index < Total(s)
    ensures !IsOpen(s) ==> r == s
  {
    if s.project.None? then s else s.(index := NextIndex(s.index, Total(s)))
  }

  function AfterPrev(s: ViewerState): (r: ViewerState)
    requires HasSlides(s)
    ensures r.project == s.project && r.bodyOverflow == s.bodyOverflow && r.saved == s.saved
    ensures IsOpen(s) ==> r.index == PrevIndex(s.index, Total(s)) && r.index < Total(s)
    ensures !IsOpen(s) ==> r == s
  {
    if s.project.None? then s else s.(index := PrevIndex(s.index, Total(s)))
  }

  /** A click on the slide area advances only an image slide, and only when there are two or more. */
  function AfterClick(s: ViewerState): (r: ViewerState)
    ensures r.project == s.project && r.bodyOverflow == s.bodyOverflow && r.saved == s.saved
    ensures r.index != s.index ==>
      !IsScrollableShowcase(s) && !IsCurrentVideo(s) && Total(s) > 1
    ensures !IsScrollableShowcase(s) && !IsCurrentVideo(s) && Total(s) > 1 ==>
      r.index == NextIndex(s.index, Total(s))
  {
    if !IsScrollableShowcase(s) && !IsCurrentVideo(s) && Total(s) > 1 then AfterNext(s) else s
  }

  /** The keydown listener, registered only while the viewer is open. */
  function AfterKey(s: ViewerState, key: string): (r: ViewerState)
    requires ScrollLockHeld(s) && HasSlides(s)
    ensures ScrollLockHeld(r) && HasSlides(r)
    ensures !IsOpen(s) ==> r == s
    ensures IsOpen(s) && key == "ArrowLeft" ==> r == AfterPrev(s)
    ensures IsOpen(s) && key == "ArrowRight" ==> r == AfterNext(s)
    ensures IsOpen(s) && key == "Escape" ==> r == AfterClose(s)
    ensures key !in {"ArrowLeft", "ArrowRight", "Escape"} ==> r == s
  {
    if !IsOpen(s) then s
    else if key == "ArrowLeft" then AfterPrev(s)
    else if key == "ArrowRight" then AfterNext(s)
    else if key == "Escape" then AfterClose(s)
    else s
  }

  function AfterKeys(s: ViewerState, keys: seq<string>): (r: ViewerState)
    requires ScrollLockHeld(s) && HasSlides(s)
    ensures ScrollLockHeld(r) && HasSlides(r)
    decreases |keys|
  {
    if keys == [] then s else AfterKeys(AfterKey(s, keys[0]), keys[1..])
  }

  /**
   * Whatever keys are pressed while open, the lock keeps the value saved at
   * open, and if the viewer closes, the body gets that value back.
   */
  lemma {:induction false} KeysKeepSavedOverflow(s: ViewerState, keys: seq<string>)
    requires ScrollLockHeld(s) && HasSlides(s) && IsOpen(s)
    ensures var r := AfterKeys(s, keys);
      (IsOpen(r) ==> r.saved == s.saved) && (!IsOpen(r) ==> r.bodyOverflow == s.saved.value)
    decreases |keys|
  {
    if keys != [] {
      var t := AfterKey(s, keys[0]);
      if IsOpen(t) {
        KeysKeepSavedOverflow(t, keys[1..]);
      } else {
        ClosedIgnoresKeys(t, keys[1..]);
      }
    }
  }

  /** While closed, no key has any effect. */
  lemma {:induction false} ClosedIgnoresKeys(s: ViewerState, keys: seq<string>)
    requires ScrollLockHeld(s) && HasSlides(s) && !IsOpen(s)
    ensures AfterKeys(s, keys) == s
    decreases |keys|
  {
    if keys != [] {
      ClosedIgnoresKeys(s, keys[1..]);
    }
  }

  /** Opening, pressing keys and closing gives the body back its overflow from before. */
  lemma SessionRestoresOverflow(s: ViewerState, p: Project, keys: seq<string>)
    requires ScrollLockHeld(s) && !IsOpen(s) && |Slides(Some(p))| > 0
    ensures var r := AfterClose(AfterKeys(AfterOpen(s, p), keys));
      !IsOpen(r) && r.bodyOverflow == s.bodyOverflow
  {
    KeysKeepSavedOverflow(AfterOpen(s, p), keys);
  }

  /** A stale index past the end shows no slide, and one next() brings it back into range. */
  lemma StaleIndexRecovers(s: ViewerState)
    requires IsOpen(s) && HasSlides(s) && Total(s) <= s.index
    ensures Src(s) == ""
    ensures AfterNext(s).index == (s.index + 1) % Total(s) < Total(s)
    ensures AfterPrev(s).index < Total(s)
  {
  }

  lemma ReopenSlides(p1: Project, p2: Project)
    requires p1.images == ["a", "b"] && p1.scroll == Some(["c"])
    requires p2.images == ["d", "e"] && p2.scroll == None
    ensures Slides(Some(p1)) == ["a", "b", "c"] && Slides(Some(p2)) == ["d", "e"]
  {
    assert ScrollExtras(["c"], ["a", "b"]) == ["c"];
  }

  /**
   * The index survives close and reopen: three slides, move to the last, close,
   * open a project with two slides, and the index is out of range.
   */
  lemma ReopenKeepsIndex()
    ensures var p1 := Project("p1", "", "", Real, ["a", "b"], Some(["c"]));
      var p2 := Project("p2", "", "", Real, ["d", "e"], None);
      var s := AfterClose(AfterNext(AfterNext(AfterOpen(Initial, p1))));
      var r := AfterOpen(s, p2);
      r.index == 2 && Src(r) == "" && Src(AfterNext(r)) == "e"
  {
    var p1 := Project("p1", "", "", Real, ["a", "b"], Some(["c"]));
    var p2 := Project("p2", "", "", Real, ["d", "e"], None);
    ReopenSlides(p1, p2);
    var s1 := AfterOpen(Initial, p1);
    assert s1 == ViewerState(Some(p1), 0, "hidden", Some(""));
    var s2 := AfterNext(s1);
    assert s2 == s1.(index := 1);
    var s3 := AfterNext(s2);
    assert s3 == s1.(index := 2);
    var s4 := AfterClose(s3);
    assert s4 == ViewerState(None, 2, "", None);
    var r := AfterOpen(s4, p2);
    assert r == ViewerState(Some(p2), 2, "hidden", Some(""));
    assert Total(r) == 2 && AfterNext(r).index == 1;
  }

  // ---- The imperative viewer ----

  /** `document.body.style`, shared with the rest of the page. */
  class DocumentBody {
    var overflow: string

    constructor (overflow: string)
      ensures this.overflow == overflow
    {
      this.overflow := overflow;
    }
  }

  class BottomViewer {
    var project: Option<Project>
    var index: nat
    var saved: Option<string>
    const body: DocumentBody

    function State(): ViewerState
      reads this, body
    {
      ViewerState(project, index, body.overflow, saved)
    }

    ghost predicate Valid()
      reads this, body
    {
      ScrollLockHeld(State())
    }

    constructor (body: DocumentBody)
      ensures this.body == body && Valid()
      ensures State() == ViewerState(None, 0, body.overflow, None)
    {
      this.body := body;
      project, index, saved := None, 0, None;
    }

    method Open(p: Project)
      requires Valid()
      modifies this, body
      ensures Valid() && State() == AfterOpen(old(State()), p)
    {
      var wasOpen := project.Some?;
      project := Some(p);
      if !wasOpen {
        saved := Some(body.overflow);
        body.overflow := "hidden";
      }
    }

    method Close()
      requires Valid()
      modifies this, body
      ensures Valid() && State() == AfterClose(old(State()))
    {
      if project.Some? {
        project := None;
        body.overflow := saved.value;
        saved := None;
      }
    }

    method Next()
      requires Valid() && HasSlides(State())
      modifies this
      ensures Valid() && State() == AfterNext(old(State()))
    {
      if project.None? {
        return;
      }
      var total := |Slides(project)|;
      index := (index + 1) % total;
    }

    method Prev()
      requires Valid() && HasSlides(State())
      modifies this
      ensures Valid() && State() == AfterPrev(old(State()))
    {
      if project.None? {
        return;
      }
      var total := |Slides(project)|;
      index := (index - 1 + total) % total;
    }

    method ClickSlide()
      requires Valid()
      modifies this
      ensures Valid() && State() == AfterClick(old(State()))
    {
      var st := State();
      if !IsScrollableShowcase(st) && !IsCurrentVideo(st) && Total(st) > 1 {
        Next();
      }
    }

    method OnKey(key: string)
      requires Valid() && HasSlides(State())
      modifies this, body
      ensures Valid() && State() == AfterKey(old(State()), key)
    {
      if project.None? {
        return;
      }
      if key == "ArrowLeft" {
        Prev();
      } else if key == "ArrowRight" {
        Next();
      } else if key == "Escape" {
        Close();
      }
    }
  }
}
