/** Loading the segments of an executable into fresh pages. */
module ElfImage {
  import opened Bytes

  const PAGE: nat := 4096

  datatype Segment = Segment(vaddr: nat, offset: nat, filesz: nat, memsz: nat, writable: bool, executable: bool)

  type Frame = s: seq<byte> | |s| == PAGE witness Zeros(PAGE)

  datatype Mapping = Mapping(data: Frame, writable: bool, executable: bool)

  datatype LoadError = OutOfMemory | MapFailed | OutOfBounds

  datatype Result<+T> = Ok(value: T) | Err(error: LoadError)

  function FirstPage(seg: Segment): nat { seg.vaddr / PAGE }

  /**
   * The page of the last address, as the source computes it; just before the first page for an empty segment at a
   * page's start.
   */
  function LastPage(seg: Segment): int
    requires seg.vaddr + seg.memsz > 0
  {
    (seg.vaddr + seg.memsz - 1) / PAGE
  }

  predicate InSegment(seg: Segment, page: nat) { FirstPage(seg) <= page && PAGE * page < seg.vaddr + seg.memsz }

  /** What the program image has at an address of the segment's pages: the file's byte, or zero. */
  function ImageByte(data: seq<byte>, seg: Segment, a: nat): byte {
    if seg.vaddr <= a < seg.vaddr + seg.filesz && seg.offset + (a - seg.vaddr) < |data|
    then data[seg.offset + (a - seg.vaddr)] else 0
  }

  predicate ShowsImage(data: seq<byte>, seg: Segment, page: nat, m: Mapping) {
    && m.writable == seg.writable && m.executable == seg.executable
    && forall k :: 0 <= k < PAGE ==> m.data[k] == ImageByte(data, seg, PAGE * page + k)
  }

  /** Where the file part of the segment ends within the page, if any of it falls into the page. */
  function CopyEnd(seg: Segment, page: nat): nat { Min(PAGE * page + PAGE, seg.vaddr + seg.filesz) }

  function CopyStart(seg: Segment, page: nat): nat { if PAGE * page > seg.vaddr then PAGE * page else seg.vaddr }

  /** The file is long enough for the bytes that fall into the page. */
  predicate Backed(data: seq<byte>, seg: Segment, page: nat) {
    CopyStart(seg, page) < CopyEnd(seg, page) ==> seg.offset + (CopyEnd(seg, page) - seg.vaddr) <= |data|
  }

  /** Zero a frame and copy the part of the file that the page overlaps; false if the file is too short. */
  method FillFrame(frame: array<byte>, data: seq<byte>, seg: Segment, page: nat) returns (ok: bool)
    requires frame.Length == PAGE
    modifies frame
    ensures ok <==> Backed(data, seg, page)
    ensures ok ==> forall k :: 0 <= k < PAGE ==> frame[k] == ImageByte(data, seg, PAGE * page + k)
  {
    forall k | 0 <= k < PAGE {
      frame[k] := 0;
    }
    if seg.filesz > 0 {
      var pageStart := PAGE * page;
      var start := CopyStart(seg, page);
      var end := CopyEnd(seg, page);
      if start < end {
        var to := start - pageStart;
        var from := seg.offset + (start - seg.vaddr);
        var n := end - start;
        if from + n > |data| {
          return false;
        }
        forall k | 0 <= k < n {
          frame[to + k] := data[from + k];
        }
      }
    }
    return true;
  }

  /** Page `p` shows segment `seg`, and nobody had it before. */
  predicate PageRight(data: seq<byte>, seg: Segment, taken: set<nat>, p: nat, m: Mapping) {
    p !in taken && ShowsImage(data, seg, p, m) && Backed(data, seg, p)
  }

  predicate Reached(segments: seq<Segment>, i: nat, upto: nat, j: nat, page: nat) {
    j < |segments| && InSegment(segments[j], page) && (j < i || (j == i && page < upto))
  }

  /** `home` gives each mapped page its one segment: so far those before `i`, and the pages of `i` below `upto`. */
  ghost predicate Loaded(data: seq<byte>, segments: seq<Segment>, taken: set<nat>, pages: map<nat, Mapping>,
                         home: map<nat, nat>, i: nat, upto: nat)
  {
    && home.Keys == pages.Keys
    && (forall p :: p in home ==>
       Reached(segments, i, upto, home[p], p) && PageRight(data, segments[home[p]], taken, p, pages[p]))
    && (forall j, p :: Reached(segments, i, upto, j, p) ==> p in home && home[p] == j)
  }

  /** The pages mapped are those of the segments, each of one segment only and showing what it should. */
  ghost predicate IsImage(data: seq<byte>, segments: seq<Segment>, taken: set<nat>, pages: map<nat, Mapping>) {
    && (forall p :: p in pages ==> exists j :: 0 <= j < |segments| && InSegment(segments[j], p))
    && (forall j, p :: 0 <= j < |segments| && InSegment(segments[j], p) ==>
          p in pages && PageRight(data, segments[j], taken, p, pages[p]))
    && (forall i, j, p :: 0 <= i < j < |segments| && InSegment(segments[i], p) ==> !InSegment(segments[j], p))
  }

  // ---------------------------------------------------------------- memory

  /** A page table: its level and which stretch of pages it covers. */
  type TableId = (nat, nat)

  /** The tables that lead to a page below the top-level one. */
  function Way(page: nat): set<TableId> { {(1, page / 512), (2, page / 0x4_0000), (3, page / 0x800_0000)} }

  /** One table at each of three levels; at level 1 they cover 512 pages, at each next one 512 times as many. */
  lemma WayCovers(page: nat, level: nat, i: nat)
    ensures (level, i) in Way(page) <==>
      || (level == 1 && 512 * i <= page < 512 * (i + 1))
      || (level == 2 && 512 * 512 * i <= page < 512 * 512 * (i + 1))
      || (level == 3 && 512 * 512 * 512 * i <= page < 512 * 512 * 512 * (i + 1))
  {}

  function Ways(pages: set<nat>): set<TableId> { set p, t | p in pages && t in Way(p) :: t }

  /** The frames that mapping `pages` takes in a space that has `tables`: one each, and one for every table missing. */
  function Cost(pages: set<nat>, tables: set<TableId>): nat { |pages| + |Ways(pages) - tables| }

  lemma OneMorePage(pages: set<nat>, tables: set<TableId>, page: nat)
    requires page !in pages
    ensures Ways(pages + {page}) == Ways(pages) + Way(page)
    ensures Cost(pages + {page}, tables) == Cost(pages, tables) + 1 + |Way(page) - tables - Ways(pages)|
  {
    hide Way;
    var more, need := Ways(pages) - tables, Way(page) - tables - Ways(pages);
    assert Ways(pages + {page}) == Ways(pages) + Way(page);
    assert Ways(pages + {page}) - tables == more + need;
    assert |more + need| == |more| + |need|;
  }

  lemma {:induction false} CostGrows(a: set<nat>, b: set<nat>, tables: set<TableId>)
    requires a <= b
    ensures Cost(a, tables) <= Cost(b, tables)
  {
    Sizes(a, b);
    Sizes(Ways(a) - tables, Ways(b) - tables);
  }

  /**
   * The segment loop. On success every page of every segment is mapped, no two segments share one, and each
   * shows its segment's bytes at their addresses, however these are aligned, and zeros everywhere else.
   */
  method LoadSegments(data: seq<byte>, segments: seq<Segment>, taken: set<nat>, tables: set<TableId>, frames: nat)
    returns (r: Result<map<nat, Mapping>>)
    requires forall i :: 0 <= i < |segments| ==> segments[i].vaddr + segments[i].memsz > 0
    ensures r.Ok? ==> IsImage(data, segments, taken, r.value) && Cost(r.value.Keys, tables) <= frames
    ensures r.Ok? <==> Loadable(data, segments, taken, tables, frames)
    ensures r.Err? ==> Cause(r.error, data, segments, taken, tables, frames)
  {
    hide PageRight, Loaded, InSegment, IsImage, Loadable, Cause;
    NothingLoaded(data, segments, taken);
    var pages: map<nat, Mapping> := map[];
    ghost var home: map<nat, nat> := map[];
    var now, left := tables, frames;
    assert Ways({}) == {};
    for i := 0 to |segments|
      invariant Spent(pages, tables, frames, now, left)
      invariant Loaded(data, segments, taken, pages, home, i, 0)
    {
      r, now, left, home := LoadSegment(data, segments, taken, pages, home, i, tables, frames, now, left);
      if r.Err? { return; }
      pages := r.value;
    }
    AllLoaded(data, segments, taken, pages, home);
    ItIsLoadable(data, segments, taken, tables, frames, pages);
    return Ok(pages);
  }

  /** There is such an image, and memory for it and its tables. */
  ghost predicate Loadable(data: seq<byte>, segments: seq<Segment>, taken: set<nat>, tables: set<TableId>, frames: nat)
  {
    exists pages: map<nat, Mapping> :: IsImage(data, segments, taken, pages) && Cost(pages.Keys, tables) <= frames
  }

  ghost predicate InSome(segments: seq<Segment>, page: nat) {
    exists j :: 0 <= j < |segments| && InSegment(segments[j], page)
  }

  /** A page that two segments want, or that is in use already. */
  ghost predicate Clash(segments: seq<Segment>, taken: set<nat>) {
    exists j, p :: 0 <= j < |segments| && InSegment(segments[j], p) && (p in taken || InSome(segments[..j], p))
  }

  /** Pages of the segments that with their tables take `cost` frames. */
  ghost predicate Costs(segments: seq<Segment>, tables: set<TableId>, s: set<nat>, cost: nat) {
    Cost(s, tables) == cost && forall p :: p in s ==> InSome(segments, p)
  }

  /** More frames are needed than there are. */
  ghost predicate Short(segments: seq<Segment>, tables: set<TableId>, frames: nat) {
    exists s, cost: nat :: Costs(segments, tables, s, cost) && cost > frames
  }

  /**
   * What each error tells. The loop asks for a frame before it finds that the page is mapped, and runs short of frames
   * for tables only while mapping.
   */
  ghost predicate Cause(error: LoadError, data: seq<byte>, segments: seq<Segment>, taken: set<nat>,
                        tables: set<TableId>, frames: nat)
  {
    match error
    case OutOfMemory =>
      || Short(segments, tables, frames)
      || (Clash(segments, taken) && exists s :: Costs(segments, tables, s, frames))
    case MapFailed => Clash(segments, taken) || Short(segments, tables, frames)
    case OutOfBounds => exists j, p :: 0 <= j < |segments| && InSegment(segments[j], p) && !Backed(data, segments[j], p)
  }

  lemma ItIsLoadable(data: seq<byte>, segments: seq<Segment>, taken: set<nat>, tables: set<TableId>, frames: nat,
                     pages: map<nat, Mapping>)
    requires IsImage(data, segments, taken, pages) && Cost(pages.Keys, tables) <= frames
    ensures Loadable(data, segments, taken, tables, frames)
  {}

  /** With `pages` mapped there are the tables `now`, and `left` of the frames are left. */
  ghost predicate Spent(pages: map<nat, Mapping>, tables: set<TableId>, frames: nat, now: set<TableId>, left: nat) {
    now == tables + Ways(pages.Keys) && Cost(pages.Keys, tables) + left == frames
  }

  /** One pass of the segment loop. */
  method LoadSegment(data: seq<byte>, segments: seq<Segment>, taken: set<nat>, pages: map<nat, Mapping>,
                     ghost home: map<nat, nat>, i: nat, ghost tables: set<TableId>, ghost frames: nat,
                     now: set<TableId>, left: nat)
    returns (r: Result<map<nat, Mapping>>, now': set<TableId>, left': nat, ghost home': map<nat, nat>)
    requires i < |segments| && segments[i].vaddr + segments[i].memsz > 0
        && Loaded(data, segments, taken, pages, home, i, 0)
    requires Spent(pages, tables, frames, now, left)
    ensures r.Ok? ==> Loaded(data, segments, taken, r.value, home', i + 1, 0)
    ensures r.Ok? ==> Spent(r.value, tables, frames, now', left')
    ensures r.Err? ==> !Loadable(data, segments, taken, tables, frames)
    ensures r.Err? ==> Cause(r.error, data, segments, taken, tables, frames)
  {
    hide PageRight, Loaded, Backed, Loadable, InSegment, Cause, Cost, Ways, Way;
    var seg := segments[i];
    var more: map<nat, Mapping> := pages;
    home', now', left' := home, now, left;
    Turn(data, segments, taken, more, home', i);
    for page := FirstPage(seg) to LastPage(seg) + 1
      invariant Spent(more, tables, frames, now', left')
      invariant Loaded(data, segments, taken, more, home', i, page)
    {
      InPages(seg, page);
      Stuck(data, segments, taken, more, home', i, page, tables, frames);
      StuckCause(data, segments, taken, more, home', i, page, tables, frames);
      if left' == 0 {
        return Err(OutOfMemory), now', left', home';
      }
      if page in more || page in taken {
        return Err(MapFailed), now', left', home';
      }
      OneMorePage(more.Keys, tables, page);
      assert Way(page) - now' == Way(page) - tables - Ways(more.Keys);
      if |Way(page) - now'| + 1 > left' {
        return Err(MapFailed), now', left', home';
      }
      var ok, m := MakePage(data, seg, taken, page);
      if !ok {
        return Err(OutOfBounds), now', left', home';
      }
      OnePageMore(data, segments, taken, more, home', i, page, m);
      assert more[page := m].Keys == more.Keys + {page};
      left' := left' - 1 - |Way(page) - now'|;
      more, home', now' := more[page := m], home'[page := i], now' + Way(page);
    }
    TurnOver(data, segments, taken, more, home', i);
    return Ok(more), now', left', home';
  }

  /** The contents and permissions of one page. */
  method MakePage(data: seq<byte>, seg: Segment, ghost taken: set<nat>, page: nat) returns (ok: bool, m: Mapping)
    requires page !in taken
    ensures ok <==> Backed(data, seg, page)
    ensures ok ==> PageRight(data, seg, taken, page, m)
  {
    hide PageRight;
    var frame := new byte[PAGE](_ => 0);
    ok := FillFrame(frame, data, seg, page);
    m := Mapping(frame[..], seg.writable, seg.executable);
    if ok {
      FrameRight(data, seg, taken, page, m);
    }
  }

  lemma FrameRight(data: seq<byte>, seg: Segment, taken: set<nat>, page: nat, m: Mapping)
    requires page !in taken && Backed(data, seg, page) && m.writable == seg.writable && m.executable == seg.executable
    requires forall k :: 0 <= k < PAGE ==> m.data[k] == ImageByte(data, seg, PAGE * page + k)
    ensures PageRight(data, seg, taken, page, m)
  {}

  lemma OnePageMore(data: seq<byte>, segments: seq<Segment>, taken: set<nat>, pages: map<nat, Mapping>,
                    home: map<nat, nat>, i: nat, page: nat, m: Mapping)
    requires Loaded(data, segments, taken, pages, home, i, page) && page !in pages
    requires i < |segments| && segments[i].vaddr + segments[i].memsz > 0 && InSegment(segments[i], page)
        && PageRight(data, segments[i], taken, page, m)
    ensures Loaded(data, segments, taken, pages[page := m], home[page := i], i, page + 1)
  {
    hide PageRight, InSegment;
    var next, home' := page + 1, home[page := i];
    forall j, p
      ensures Reached(segments, i, next, j, p) <==> Reached(segments, i, page, j, p) || (j == i && p == page) {}
    forall p | p in home' ensures Reached(segments, i, next, home'[p], p) {
      if p != page { assert p in home; }
    }
  }

  lemma NothingLoaded(data: seq<byte>, segments: seq<Segment>, taken: set<nat>)
    ensures Loaded(data, segments, taken, map[], map[], 0, 0)
  {}

  lemma Turn(data: seq<byte>, segments: seq<Segment>, taken: set<nat>, pages: map<nat, Mapping>, home: map<nat, nat>,
             i: nat)
    requires i < |segments| && Loaded(data, segments, taken, pages, home, i, 0)
    ensures Loaded(data, segments, taken, pages, home, i, FirstPage(segments[i]))
  {
    hide PageRight;
    forall j, p ensures Reached(segments, i, FirstPage(segments[i]), j, p) <==> Reached(segments, i, 0, j, p) {}
  }

  lemma TurnOver(data: seq<byte>, segments: seq<Segment>, taken: set<nat>, pages: map<nat, Mapping>,
                 home: map<nat, nat>, i: nat)
    requires i < |segments| && segments[i].vaddr + segments[i].memsz > 0
    requires Loaded(data, segments, taken, pages, home, i, LastPage(segments[i]) + 1)
    ensures Loaded(data, segments, taken, pages, home, i + 1, 0)
  {
    hide PageRight;
    var next, last := i + 1, LastPage(segments[i]) + 1;
    forall j, p ensures Reached(segments, next, 0, j, p) <==> Reached(segments, i, last, j, p) {}
  }

  lemma AllLoaded(data: seq<byte>, segments: seq<Segment>, taken: set<nat>, pages: map<nat, Mapping>,
                  home: map<nat, nat>)
    requires forall i :: 0 <= i < |segments| ==> segments[i].vaddr + segments[i].memsz > 0
    requires Loaded(data, segments, taken, pages, home, |segments|, 0)
    ensures IsImage(data, segments, taken, pages)
  {
    hide PageRight, InSegment;
    forall j, p | 0 <= j < |segments| && InSegment(segments[j], p)
      ensures p in home && home[p] == j && p in pages && PageRight(data, segments[j], taken, p, pages[p])
    {
      assert Reached(segments, |segments|, 0, j, p);
      assert PageRight(data, segments[home[p]], taken, p, pages[p]);
    }
    forall p | p in pages ensures exists j :: 0 <= j < |segments| && InSegment(segments[j], p) {
      assert Reached(segments, |segments|, 0, home[p], p);
    }
    forall i, j, p | 0 <= i < j < |segments| && InSegment(segments[i], p) ensures !InSegment(segments[j], p) {
      assert home[p] == i;
    }
  }

  lemma InPages(seg: Segment, page: nat)
    requires seg.vaddr + seg.memsz > 0
    ensures InSegment(seg, page) <==> FirstPage(seg) <= page <= LastPage(seg)
  {}

  /** A page mapped so far is a page of any image, and not the next page. */
  lemma Before(data: seq<byte>, segments: seq<Segment>, taken: set<nat>, pages: map<nat, Mapping>, home: map<nat, nat>,
               i: nat, page: nat, image: map<nat, Mapping>, p: nat)
    requires Loaded(data, segments, taken, pages, home, i, page) && IsImage(data, segments, taken, image)
    requires i < |segments| && InSegment(segments[i], page) && p in pages
    ensures p in image && p != page
  {
    hide InSegment, PageRight;
    assert Reached(segments, i, page, home[p], p);
  }

  lemma NextInImage(data: seq<byte>, segments: seq<Segment>, taken: set<nat>, i: nat, page: nat,
                    image: map<nat, Mapping>)
    requires IsImage(data, segments, taken, image) && i < |segments| && InSegment(segments[i], page)
    ensures page in image && page !in taken && Backed(data, segments[i], page)
  {
    hide InSegment, Backed, ShowsImage;
    assert PageRight(data, segments[i], taken, page, image[page]);
  }

  /** Where the loop gives up there is no image to be had. */
  lemma Stuck(data: seq<byte>, segments: seq<Segment>, taken: set<nat>, pages: map<nat, Mapping>, home: map<nat, nat>,
              i: nat, page: nat, tables: set<TableId>, frames: nat)
    requires Loaded(data, segments, taken, pages, home, i, page) && i < |segments| && InSegment(segments[i], page)
    ensures page in pages || page in taken ==> !Loadable(data, segments, taken, tables, frames)
    ensures !Backed(data, segments[i], page) ==> !Loadable(data, segments, taken, tables, frames)
    ensures Cost(pages.Keys + {page}, tables) > frames ==> !Loadable(data, segments, taken, tables, frames)
    ensures Cost(pages.Keys, tables) >= frames ==> !Loadable(data, segments, taken, tables, frames)
  {
    hide InSegment, Backed, Loaded, IsImage, Cost, Ways, Way;
    if Loadable(data, segments, taken, tables, frames) {
      var image: map<nat, Mapping> :| IsImage(data, segments, taken, image) && Cost(image.Keys, tables) <= frames;
      forall p | p in pages ensures p in image && p != page {
        Before(data, segments, taken, pages, home, i, page, image, p);
      }
      NextInImage(data, segments, taken, i, page, image);
      OneMorePage(pages.Keys, tables, page);
      CostGrows(pages.Keys + {page}, image.Keys, tables);
    }
  }

  lemma MappedReached(data: seq<byte>, segments: seq<Segment>, taken: set<nat>, pages: map<nat, Mapping>,
                      home: map<nat, nat>, i: nat, page: nat, p: nat)
    requires Loaded(data, segments, taken, pages, home, i, page) && p in pages
    ensures p in home && Reached(segments, i, page, home[p], p) && InSome(segments, p)
  {}

  lemma StuckCause(data: seq<byte>, segments: seq<Segment>, taken: set<nat>, pages: map<nat, Mapping>,
                   home: map<nat, nat>, i: nat, page: nat, tables: set<TableId>, frames: nat)
    requires Loaded(data, segments, taken, pages, home, i, page) && i < |segments| && InSegment(segments[i], page)
    ensures Cost(pages.Keys, tables) == frames ==> Cause(OutOfMemory, data, segments, taken, tables, frames)
    ensures page in pages || page in taken || Cost(pages.Keys + {page}, tables) > frames ==>
      Cause(MapFailed, data, segments, taken, tables, frames)
    ensures !Backed(data, segments[i], page) ==> Cause(OutOfBounds, data, segments, taken, tables, frames)
  {
    hide InSegment, Backed, Loaded, Cost, Ways, Way;
    assert InSome(segments, page);
    forall p | p in pages ensures InSome(segments, p) {
      MappedReached(data, segments, taken, pages, home, i, page, p);
    }
    assert Costs(segments, tables, pages.Keys, Cost(pages.Keys, tables));
    assert Costs(segments, tables, pages.Keys + {page}, Cost(pages.Keys + {page}, tables));
    if page in pages {
      MappedReached(data, segments, taken, pages, home, i, page, page);
      assert segments[..i][home[page]] == segments[home[page]];
      assert InSome(segments[..i], page);
    } else {
      OneMorePage(pages.Keys, tables, page);
    }
  }

  lemma {:induction false} Sizes<T>(a: set<T>, b: set<T>)
    requires a <= b
    ensures |a| <= |b|
  {
    assert b == a + (b - a);
  }

  /** Every byte of the file part shows at its address, when it is no longer than the segment. */
  lemma FileShown(data: seq<byte>, segments: seq<Segment>, taken: set<nat>, pages: map<nat, Mapping>, j: nat, a: nat)
    requires IsImage(data, segments, taken, pages) && j < |segments| && segments[j].filesz <= segments[j].memsz
    requires segments[j].vaddr <= a < segments[j].vaddr + segments[j].filesz
    ensures segments[j].offset + (a - segments[j].vaddr) < |data|
    ensures a / PAGE in pages && pages[a / PAGE].data[a % PAGE] == data[segments[j].offset + (a - segments[j].vaddr)]
  {
    assert InSegment(segments[j], a / PAGE) && PAGE * (a / PAGE) + a % PAGE == a;
    assert PageRight(data, segments[j], taken, a / PAGE, pages[a / PAGE]);
  }
}
