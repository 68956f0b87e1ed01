/**
  `VideoGalleryModule`: the shuffled playlist and its cursor, random
  picks, loading a file into the hero video or an image, volume and mute,
  and `cleanup`.  `MEDIA.VIDEOS`, `MEDIA.IMAGES` and `MEDIA.BASE_PATH` come
  from the configuration object and are parameters; `Math.random` is
  a parameter too (a number in [0, 1), or the order a shuffle produced).
 */
module Gallery {
  import opened Common

  /** `currentVideoIndex`: a number that `%` by an empty playlist's length
      turns into `NaN`. */
  datatype Index = Idx(i: int) | NaNIndex

  /** JavaScript `a % n`: the remainder takes the dividend's sign, and a
      zero divisor gives `NaN`. */
  function JsRem(a: int, n: int): (r: Index)
    ensures n == 0 <==> r.NaNIndex?
    ensures n > 0 && a >= 0 ==> r == Idx(a % n)
    ensures r.Idx? && a >= 0 ==> 0 <= r.i < n || 0 <= r.i < -n
  {
    if n == 0 then NaNIndex
    else
      var m := if n > 0 then n else -n;
      if a >= 0 then Idx(a % m) else Idx(-((-a) % m))
  }

  /** The index `loadNextVideo` moves to. */
  function NextIndex(idx: Index, n: nat): Index
  {
    match idx
    case NaNIndex => NaNIndex
    case Idx(i) => JsRem(i + 1, n)
  }

  /** The index `loadPreviousVideo` moves to: `n - 1` from 0 (so -1 for an
      empty playlist), otherwise one back; `NaN` stays `NaN`. */
  function PrevIndex(idx: Index, n: nat): Index
  {
    match idx
    case NaNIndex => NaNIndex
    case Idx(i) => if i == 0 then Idx(n - 1) else Idx(i - 1)
  }

  predicate InRange(idx: Index, n: nat)
  {
    idx.Idx? && 0 <= idx.i < n
  }

  /** On a non-empty playlist both moves stay in range and undo each other. */
  lemma IndexCycle(i: int, n: nat)
    requires 0 <= i < n
    ensures InRange(NextIndex(Idx(i), n), n) && InRange(PrevIndex(Idx(i), n), n)
    ensures NextIndex(Idx(i), n) == Idx(if i == n - 1 then 0 else i + 1)
    ensures PrevIndex(NextIndex(Idx(i), n), n) == Idx(i)
    ensures NextIndex(PrevIndex(Idx(i), n), n) == Idx(i)
  {
    if i + 1 < n {
      ModBelow(i + 1, n);
    } else {
      ModSelf(n);
    }
    if i == 0 {
      ModSelf(n);
    } else {
      ModBelow(i, n);
    }
  }

  lemma ModBelow(a: nat, n: nat)
    requires a < n
    ensures a % n == a
  {
  }

  lemma ModSelf(n: nat)
    requires n > 0
    ensures n % n == 0
  {
  }

  /** The element at an index, or `undefined` (`None`). */
  function At(list: seq<string>, idx: Index): (r: Option<string>)
    ensures r.Some? <==> InRange(idx, |list|)
    ensures r.Some? ==> r.value in list
  {
    if InRange(idx, |list|) then Some(list[idx.i]) else None
  }

  // ------------------------------------------------------------------ shuffle

  /** A shuffle of the configured videos: a reordering, nothing added or
      lost. */
  predicate IsShuffle(videos: seq<string>, s: seq<string>)
  {
    multiset(s) == multiset(videos)
  }

  /** `shuffleVideos`: a copy of the list sorted with a random comparator,
      that is some reordering of it. */
  method ShuffleVideos(videos: seq<string>) returns (s: seq<string>)
    ensures IsShuffle(videos, s) && |s| == |videos|
    ensures forall v :: v in s <==> v in videos
  {
    s :| multiset(s) == multiset(videos) && |s| == |videos| by {
      assert multiset(videos) == multiset(videos);
    }
    ShuffleKeepsMembers(videos, s);
  }

  lemma ShuffleKeepsMembers(videos: seq<string>, s: seq<string>)
    requires IsShuffle(videos, s)
    ensures forall v :: v in s <==> v in videos
  {
    forall v
      ensures v in s <==> v in videos
    {
      assert v in s <==> v in multiset(s);
      assert v in videos <==> v in multiset(videos);
    }
  }

  // ---------------------------------------------------------- random picks

  /** `getRandomVideo` / `getRandomImage`: `null` for an empty list,
      otherwise the element at `Math.floor(u * length)`, where `u` is what
      `Math.random()` returned. */
  function GetRandom(list: seq<string>, u: real): (r: Option<string>)
    requires 0.0 <= u < 1.0
    ensures r.None? <==> |list| == 0
    ensures r.Some? ==> r.value in list
  {
    if |list| == 0 then None
    else
      var k := (u * |list| as real).Floor;
      FloorInRange(u, |list|);
      Some(list[k])
  }

  lemma FloorInRange(u: real, n: nat)
    requires 0.0 <= u < 1.0 && n > 0
    ensures 0 <= (u * n as real).Floor < n
  {
    assert u * n as real < n as real;
  }

  /** Every element can come up: the draw `k / n` picks element `k`. */
  lemma EveryElementReachable(list: seq<string>, k: nat)
    requires k < |list|
    ensures var u := k as real / |list| as real;
            0.0 <= u < 1.0 && GetRandom(list, u) == Some(list[k])
  {
    var n := |list| as real;
    var u := k as real / n;
    assert u * n == k as real;
    assert (k as real).Floor == k;
  }

  // ----------------------------------------------------------------- loading

  /** The hero `<video>`: its `src`, `muted` and `volume`. */
  datatype HeroVideo = HeroVideo(src: string, muted: bool, volume: real)

  /** An `<img>`: its `src` and `alt`. */
  datatype Image = Image(src: string, alt: string)

  /** A filename argument that is neither `undefined` nor empty. */
  predicate Given(filename: Option<string>)
  {
    filename.Some? && filename.value != ""
  }

  /** `loadVideo`: with an element and a filename, `src` becomes the base
      path followed by the filename; otherwise nothing changes. */
  function LoadVideo(hero: Option<HeroVideo>, filename: Option<string>, basePath: string): (r: (bool, Option<HeroVideo>))
    ensures r.0 <==> hero.Some? && Given(filename)
    ensures r.0 ==> r.1 == Some(hero.value.(src := basePath + filename.value))
    ensures !r.0 ==> r.1 == hero
  {
    if hero.None? || !Given(filename) then (false, hero)
    else (true, Some(hero.value.(src := basePath + filename.value)))
  }

  /** `imageFilename.split('.')[0]`. */
  function Stem(filename: string): (stem: string)
  {
    Split(filename, '.')[0]
  }

  /** The stem is the filename up to its first dot and holds no dot. */
  lemma StemIsPrefix(filename: string)
    ensures var stem := Stem(filename);
            '.' !in stem && |stem| <= |filename| && filename[..|stem|] == stem &&
            (|stem| < |filename| ==> filename[|stem|] == '.') &&
            ('.' !in filename ==> stem == filename)
  {
    var parts := Split(filename, '.');
    JoinSplit(filename, '.');
    if |parts| > 1 {
      assert Join(parts, '.') == parts[0] + ['.'] + Join(parts[1..], '.');
    } else {
      assert Join(parts, '.') == parts[0];
    }
  }

  /** `loadImage`: `src` as for a video and `alt` as `Xylocope - ` and the
      filename's stem. */
  function LoadImage(img: Option<Image>, filename: Option<string>, basePath: string): (r: (bool, Option<Image>))
    ensures r.0 <==> img.Some? && Given(filename)
    ensures r.0 ==> r.1 == Some(Image(basePath + filename.value, "Xylocope - " + Stem(filename.value)))
    ensures !r.0 ==> r.1 == img
  {
    if img.None? || !Given(filename) then (false, img)
    else (true, Some(Image(basePath + filename.value, "Xylocope - " + Stem(filename.value))))
  }

  /** An image named `name.ext` gets the alt text `Xylocope - name`. */
  lemma AltOfDottedName(img: Image, name: string, ext: string, basePath: string)
    requires name != "" && '.' !in name
    ensures LoadImage(Some(img), Some(name + "." + ext), basePath).1 ==
            Some(Image(basePath + name + "." + ext, "Xylocope - " + name))
  {
    var f := name + "." + ext;
    assert f == name + ['.'] + ext;
    SplitCons(name, '.', ext);
    assert Stem(f) == name;
    assert basePath + f == basePath + name + "." + ext;
  }

  // ---------------------------------------------------------- playlist state

  /** `this.state`. */
  datatype State = State(currentVideoIndex: Index, shuffledVideos: seq<string>, isAutoPlaying: bool, isInitialized: bool)

  datatype Module = Module(state: State, hero: Option<HeroVideo>)

  /** The playlist is a shuffle of the videos with the cursor on one of
      its entries; or it is empty, with the cursor at 0 unless no videos are
      configured (then the moves have left it at `NaN` or -1). */
  predicate Inv(m: Module, videos: seq<string>)
  {
    if |m.state.shuffledVideos| == 0 then |videos| == 0 || m.state.currentVideoIndex == Idx(0)
    else IsShuffle(videos, m.state.shuffledVideos) && InRange(m.state.currentVideoIndex, |m.state.shuffledVideos|)
  }

  /** The playlist a step works on: reshuffled (into `reshuffle`) when
      empty. */
  function Playlist(m: Module, reshuffle: seq<string>): seq<string>
  {
    if |m.state.shuffledVideos| == 0 then reshuffle else m.state.shuffledVideos
  }

  /** `loadNextVideo` (`next`) and `loadPreviousVideo` (`!next`). */
  function Move(m: Module, next: bool, reshuffle: seq<string>, basePath: string): (r: (bool, Module))
    ensures var list := Playlist(m, reshuffle);
            var idx := if next then NextIndex(m.state.currentVideoIndex, |list|)
                       else PrevIndex(m.state.currentVideoIndex, |list|);
            && r.1.state == m.state.(currentVideoIndex := idx, shuffledVideos := list)
            && (r.0 <==> m.hero.Some? && Given(At(list, idx)))
            && (r.0 ==> r.1.hero == Some(m.hero.value.(src := basePath + At(list, idx).value)))
            && (!r.0 ==> r.1.hero == m.hero)
  {
    var list := Playlist(m, reshuffle);
    var idx := if next then NextIndex(m.state.currentVideoIndex, |list|)
               else PrevIndex(m.state.currentVideoIndex, |list|);
    var (ok, hero) := LoadVideo(m.hero, At(list, idx), basePath);
    (ok, Module(m.state.(currentVideoIndex := idx, shuffledVideos := list), hero))
  }

  /** Both moves keep the cursor on the playlist, and a move that loads
      loads one of the configured videos. */
  lemma MovePreservesInv(m: Module, videos: seq<string>, next: bool, reshuffle: seq<string>, basePath: string)
    requires Inv(m, videos) && IsShuffle(videos, reshuffle)
    ensures Inv(Move(m, next, reshuffle, basePath).1, videos)
    ensures var r := Move(m, next, reshuffle, basePath);
            r.0 ==> exists v :: v in videos && r.1.hero == Some(m.hero.value.(src := basePath + v))
  {
    var list := Playlist(m, reshuffle);
    ShuffleKeepsMembers(videos, list);
    assert |list| == |multiset(list)| == |multiset(videos)| == |videos|;
    if |list| > 0 {
      IndexCycle(m.state.currentVideoIndex.i, |list|);
    }
  }

  /** With no videos configured, neither move ever loads anything. */
  lemma EmptyPlaylistLoadsNothing(m: Module, next: bool, basePath: string)
    requires m.state.shuffledVideos == []
    ensures Move(m, next, [], basePath) == (false, Module(m.state.(currentVideoIndex :=
              if next then NextIndex(m.state.currentVideoIndex, 0) else PrevIndex(m.state.currentVideoIndex, 0)), m.hero))
  {
  }

  /** Next then previous returns to the same video. */
  lemma NextThenPrevious(m: Module, videos: seq<string>, reshuffle: seq<string>, basePath: string)
    requires Inv(m, videos) && |m.state.shuffledVideos| > 0
    ensures var a := Move(m, true, reshuffle, basePath).1;
            Move(a, false, reshuffle, basePath).1.state == m.state
  {
    IndexCycle(m.state.currentVideoIndex.i, |m.state.shuffledVideos|);
  }

  // ------------------------------------------------------- volume and mute

  function Min(a: real, b: real): real { if a <= b then a else b }
  function Max(a: real, b: real): real { if a >= b then a else b }

  /** `Math.max(0, Math.min(1, volume))`. */
  function ClampVolume(v: real): (c: real)
    ensures 0.0 <= c <= 1.0
    ensures 0.0 <= v <= 1.0 ==> c == v
    ensures v < 0.0 ==> c == 0.0
    ensures v > 1.0 ==> c == 1.0
  {
    Max(0.0, Min(1.0, v))
  }

  lemma ClampIdempotent(v: real)
    ensures ClampVolume(ClampVolume(v)) == ClampVolume(v)
  {
  }

  /** `setVideoVolume`: without a hero video nothing happens. */
  function SetVideoVolume(hero: Option<HeroVideo>, v: real): (r: Option<HeroVideo>)
    ensures hero.None? ==> r.None?
    ensures hero.Some? ==> r == Some(hero.value.(volume := ClampVolume(v)))
  {
    match hero
    case None => None
    case Some(h) => Some(h.(volume := ClampVolume(v)))
  }

  /** `setVideoMuted(muted)`: an absent argument toggles, a given one is
      stored. */
  function SetVideoMuted(hero: Option<HeroVideo>, muted: Option<bool>): (r: Option<HeroVideo>)
    ensures hero.None? ==> r.None?
    ensures hero.Some? && muted.Some? ==> r == Some(hero.value.(muted := muted.value))
    ensures hero.Some? && muted.None? ==> r == Some(hero.value.(muted := !hero.value.muted))
  {
    match hero
    case None => None
    case Some(h) => Some(h.(muted := match muted case Some(b) => b case None => !h.muted))
  }

  /** Toggling twice changes nothing; setting twice is setting once. */
  lemma MuteToggleInvolution(hero: Option<HeroVideo>, b: bool)
    ensures SetVideoMuted(SetVideoMuted(hero, None), None) == hero
    ensures SetVideoMuted(SetVideoMuted(hero, Some(b)), Some(b)) == SetVideoMuted(hero, Some(b))
  {
  }

  // ------------------------------------------------------------------ cleanup

  /** The state the constructor sets. */
  const InitialState: State := State(Idx(0), [], true, false)

  /** `cleanup`: the hero video's `src` is emptied, the elements are
      dropped and the state returns to the constructor's. */
  function Cleanup(m: Module): (r: (Option<HeroVideo>, Module))
    ensures r.1 == Module(InitialState, None)
    ensures m.hero.Some? ==> r.0 == Some(m.hero.value.(src := ""))
  {
    (match m.hero case None => None case Some(h) => Some(h.(src := "")), Module(InitialState, None))
  }

  /** After `cleanup` the module satisfies the playlist invariant whatever
      the videos, and a second `cleanup` finds nothing to empty. */
  lemma CleanupResets(m: Module, videos: seq<string>)
    ensures Inv(Cleanup(m).1, videos)
    ensures Cleanup(Cleanup(m).1) == (None, Cleanup(m).1)
  {
  }
}
