/**
 * `parseProjectFiles` (App.tsx): the map of generated files held in the model's
 * accumulated reply.  A first, global pass collects every complete block
 * `<file name="N">C</file>`; a second, single match adds the block opened by
 * the leftmost well-formed open marker, with everything after that marker as
 * its content, unless a complete block already gave that name non-empty text.
 *
 * The two regular expressions are written out as scanners:
 *  - `<file name="([^"]+)">`: the name is the maximal run of non-quote
 *    characters after `name="`; it is non-empty and followed directly by `">`;
 *  - `([\s\S]*?)<\/file>`: the content stops at the first `</file>` after it;
 *  - `([\s\S]*)$` (no `g` flag): the content runs to the end of the text, and
 *    the match found is the leftmost one in the whole text.
 */
module FileExtractor {
  import opened Types
  import opened Text

  const OpenMarker: string := "<file name=\""
  const NameEnd: string := "\">"
  const CloseMarker: string := "</file>"

  /** A named file as it appears in a block. */
  datatype Entry = Entry(name: string, content: string)

  /** A complete block found at `start`; the scan resumes at `next`. */
  datatype Block = Block(entry: Entry, start: nat, next: nat)

  /** A well-formed open marker for `name` starts at `p`. */
  predicate Marker(text: string, p: int, name: string) {
    && IsAt(text, OpenMarker, p)
    && name != [] && '"' !in name
    && IsAt(text, name + NameEnd, p + |OpenMarker|)
  }

  /** Where the content after the open marker for `name` at `p` begins. */
  function Body(p: nat, name: string): nat {
    p + |OpenMarker| + |name| + |NameEnd|
  }

  /** The name of the open marker at `p`, if a well-formed one starts there. */
  function OpenAt(text: string, p: nat): (r: Option<string>)
    ensures r.Some? ==> Marker(text, p, r.value)
  {
    if !IsAt(text, OpenMarker, p) then None
    else
      var q := IndexOf(text, '"', p + |OpenMarker|);
      IndexOfFirst(text, '"', p + |OpenMarker|);
      if q > p + |OpenMarker| && IsAt(text, NameEnd, q) then
        var name := text[p + |OpenMarker|..q];
        assert text[p + |OpenMarker|..q + |NameEnd|] == name + NameEnd;
        Some(name)
      else None
  }

  /** The scanner finds every well-formed open marker: a marker's name is unique. */
  lemma OpenAtComplete(text: string, p: nat, name: string)
    requires Marker(text, p, name)
    ensures OpenAt(text, p) == Some(name)
  {
    var start := p + |OpenMarker|;
    var q := start + |name|;
    assert text[start..q + |NameEnd|] == name + NameEnd;
    assert forall j :: start <= j < q ==> text[j] == name[j - start];
    assert text[q] == '"';
    IndexOfFinds(text, '"', start, q);
    assert text[q..q + |NameEnd|] == NameEnd;
    assert text[start..q] == name;
  }

  /** The complete block whose open marker starts at `p`, ending at the first `</file>` after it. */
  function BlockAt(text: string, p: nat): (r: Option<Block>)
    ensures r.Some? ==> r.value.start == p < r.value.next <= |text|
  {
    match OpenAt(text, p)
    case None => None
    case Some(name) =>
      var body := Body(p, name);
      match FindFrom(text, CloseMarker, body)
      case None => None
      case Some(c) =>
        Some(Block(Entry(name, text[body..c]), p, c + |CloseMarker|))
  }

  /** The block at `p` from its open marker and the first `</file>` after it. */
  lemma BlockAtOf(text: string, p: nat, name: string, c: nat)
    ensures OpenAt(text, p) == Some(name) && FindFrom(text, CloseMarker, Body(p, name)) == Some(c) ==>
      BlockAt(text, p) == Some(Block(Entry(name, text[Body(p, name)..c]), p, c + |CloseMarker|))
  {
  }

  /**
   * What a block is: a well-formed open marker at `p`, then the content, then
   * the first `</file>` after the marker, after which the scan resumes.
   */
  lemma BlockAtSpec(text: string, p: nat)
    ensures BlockAt(text, p).Some? ==>
      var b := BlockAt(text, p).value; var body := Body(p, b.entry.name);
      && OpenAt(text, p) == Some(b.entry.name)
      && IsAt(text, b.entry.content + CloseMarker, body)
      && IsAt(text, CloseMarker, body + |b.entry.content|)
      && (forall j :: body <= j < body + |b.entry.content| ==> !IsAt(text, CloseMarker, j))
      && b.next == body + |b.entry.content| + |CloseMarker|
  {
    if BlockAt(text, p).Some? {
      var b := BlockAt(text, p).value;
      var body := Body(p, b.entry.name);
      var c := body + |b.entry.content|;
      FindFromFirst(text, CloseMarker, body, c);
      assert text[body..c + |CloseMarker|] == b.entry.content + CloseMarker;
    }
  }

  /** The leftmost complete block starting at or after `from` (one `exec` of the global expression). */
  function NextBlock(text: string, from: nat): (r: Option<Block>)
    decreases |text| - from
    ensures r.Some? ==> from <= r.value.start < r.value.next <= |text|
  {
    if from >= |text| then None
    else match BlockAt(text, from)
      case Some(b) => Some(b)
      case None => NextBlock(text, from + 1)
  }

  /** What `NextBlock` reports is the complete block at its start. */
  lemma {:induction false} NextBlockSound(text: string, from: nat)
    ensures NextBlock(text, from).Some? ==> BlockAt(text, NextBlock(text, from).value.start) == NextBlock(text, from)
    decreases |text| - from
  {
    if from < |text| && BlockAt(text, from).None? {
      NextBlockSound(text, from + 1);
    }
  }

  /** The complete blocks found left to right from `from`, each scan resuming after the previous block. */
  function Blocks(text: string, from: nat): seq<Entry>
    decreases |text| - from
  {
    match NextBlock(text, from)
    case None => []
    case Some(b) => [b.entry] + Blocks(text, b.next)
  }

  /** `NextBlock` finds the leftmost complete block: none starts between `from` and it. */
  lemma NextBlockLeftmost(text: string, from: nat, b: Block)
    requires NextBlock(text, from) == Some(b)
    ensures forall p :: from <= p < b.start ==> BlockAt(text, p).None?
  {
    forall p | from <= p < b.start
      ensures BlockAt(text, p).None?
    {
      NextBlockFinds(text, from, p);
    }
  }

  /** With no complete block at `from`, the scan moves on by one. */
  lemma NextBlockSkip(text: string, from: nat)
    ensures from < |text| && BlockAt(text, from).None? ==> NextBlock(text, from) == NextBlock(text, from + 1)
  {
  }

  /** `NextBlock` finds nothing only when no complete block starts at or after `from`. */
  lemma NextBlockNone(text: string, from: nat)
    requires NextBlock(text, from).None?
    ensures forall p :: from <= p ==> BlockAt(text, p).None?
  {
    forall p | from <= p
      ensures BlockAt(text, p).None?
    {
      NextBlockFinds(text, from, p);
    }
  }

  /** The block `NextBlock` finds is followed by its `</file>`. */
  lemma NextBlockClose(text: string, from: nat)
    ensures NextBlock(text, from).Some? ==>
      var b := NextBlock(text, from).value;
      IsAt(text, CloseMarker, b.next - |CloseMarker|) && from < b.next - |CloseMarker|
  {
    if NextBlock(text, from).Some? {
      NextBlockSound(text, from);
      BlockAtSpec(text, NextBlock(text, from).value.start);
    }
  }

  /** A complete block at or after `from` means `NextBlock` finds one, no later than it. */
  lemma {:induction false} NextBlockFinds(text: string, from: nat, p: nat)
    requires from <= p
    ensures BlockAt(text, p).Some? ==> NextBlock(text, from).Some? && NextBlock(text, from).value.start <= p
    decreases p - from
  {
    NextBlockHere(text, from);
    if from < p {
      NextBlockSkip(text, from);
      NextBlockFinds(text, from + 1, p);
    }
  }

  /** A complete block at `from` is the one `NextBlock` returns. */
  lemma NextBlockHere(text: string, from: nat)
    ensures BlockAt(text, from).Some? ==> NextBlock(text, from) == BlockAt(text, from)
  {
  }

  /** One step of the scan: the block found, then the blocks after it. */
  lemma BlocksStep(text: string, from: nat, b: Block)
    requires NextBlock(text, from) == Some(b)
    ensures Blocks(text, from) == [b.entry] + Blocks(text, b.next)
  {
  }

  /** No entry after index `i` has the name of entry `i`. */
  predicate LastWithName(entries: seq<Entry>, i: int)
    requires 0 <= i < |entries|
  {
    forall j :: i < j < |entries| ==> entries[j].name != entries[i].name
  }

  /** The entries stored one after another into `acc`: a later entry overwrites an earlier one. */
  function Store(acc: ProjectFiles, entries: seq<Entry>): ProjectFiles
    decreases |entries|
  {
    if entries == [] then acc
    else Store(acc[entries[0].name := entries[0].content], entries[1..])
  }

  /** The entries stored into an empty dictionary. */
  function ToMap(entries: seq<Entry>): ProjectFiles {
    Store(map[], entries)
  }

  /** The keys after storing are the keys before and the entries' names. */
  lemma {:induction false} StoreKeys(acc: ProjectFiles, entries: seq<Entry>)
    ensures forall k :: k in Store(acc, entries) <==>
      k in acc || exists i :: 0 <= i < |entries| && entries[i].name == k
    decreases |entries|
  {
    if entries != [] {
      StoreKeys(acc[entries[0].name := entries[0].content], entries[1..]);
      assert forall i :: 0 < i < |entries| ==> entries[1..][i - 1] == entries[i];
    }
  }

  /** A name maps to the content of its last entry. */
  lemma {:induction false} StoreLast(acc: ProjectFiles, entries: seq<Entry>, i: int)
    requires 0 <= i < |entries| && LastWithName(entries, i)
    ensures entries[i].name in Store(acc, entries) && Store(acc, entries)[entries[i].name] == entries[i].content
    decreases |entries|
  {
    var rest := entries[1..];
    var acc' := acc[entries[0].name := entries[0].content];
    if i == 0 {
      StoreUntouched(acc', rest, entries[0].name);
    } else {
      assert rest[i - 1] == entries[i];
      assert LastWithName(rest, i - 1);
      StoreLast(acc', rest, i - 1);
    }
  }

  /** A key no entry names keeps its value. */
  lemma {:induction false} StoreUntouched(acc: ProjectFiles, entries: seq<Entry>, k: string)
    requires k in acc && forall i :: 0 <= i < |entries| ==> entries[i].name != k
    ensures k in Store(acc, entries) && Store(acc, entries)[k] == acc[k]
    decreases |entries|
  {
    if entries != [] {
      assert forall i :: 0 <= i < |entries| - 1 ==> entries[1..][i] == entries[i + 1];
      StoreUntouched(acc[entries[0].name := entries[0].content], entries[1..], k);
    }
  }

  /** Storing non-empty contents into a dictionary of non-empty values keeps every value non-empty. */
  lemma {:induction false} StoreNonEmpty(acc: ProjectFiles, entries: seq<Entry>)
    requires forall k :: k in acc ==> acc[k] != ""
    requires forall i :: 0 <= i < |entries| ==> entries[i].content != ""
    ensures forall k :: k in Store(acc, entries) ==> Store(acc, entries)[k] != ""
    decreases |entries|
  {
    if entries != [] {
      assert forall i :: 0 <= i < |entries| - 1 ==> entries[1..][i] == entries[i + 1];
      StoreNonEmpty(acc[entries[0].name := entries[0].content], entries[1..]);
    }
  }

  /** The dictionary `acc` with every complete block from `from` on stored into it, in order. */
  function Collect(text: string, from: nat, acc: ProjectFiles): ProjectFiles
    decreases |text| - from
  {
    match NextBlock(text, from)
    case None => acc
    case Some(b) => Collect(text, b.next, acc[b.entry.name := b.entry.content])
  }

  /** The files of the complete-block pass. */
  function Complete(text: string): ProjectFiles {
    Collect(text, 0, map[])
  }

  /** Storing the blocks from `from` on is storing the list of those blocks. */
  lemma {:induction false} CollectBlocks(text: string, from: nat, acc: ProjectFiles)
    ensures Collect(text, from, acc) == Store(acc, Blocks(text, from))
    decreases |text| - from
  {
    match NextBlock(text, from)
    case None =>
    case Some(b) =>
      var bs := Blocks(text, from);
      assert bs[0] == b.entry && bs[1..] == Blocks(text, b.next);
      CollectBlocks(text, b.next, acc[b.entry.name := b.entry.content]);
  }

  /** The leftmost well-formed open marker at or after `from` (the non-global, unanchored match). */
  function FirstMarker(text: string, from: nat): (r: Option<nat>)
    decreases |text| - from
    ensures r.Some? ==> from <= r.value && OpenAt(text, r.value).Some?
  {
    if from >= |text| then None
    else if OpenAt(text, from).Some? then Some(from)
    else FirstMarker(text, from + 1)
  }

  /** `FirstMarker` finds the leftmost well-formed open marker: none lies between `from` and it. */
  lemma FirstMarkerLeftmost(text: string, from: nat, k: nat)
    requires FirstMarker(text, from) == Some(k)
    ensures forall p :: from <= p < k ==> OpenAt(text, p).None?
  {
    forall p | from <= p < k
      ensures OpenAt(text, p).None?
    {
      FirstMarkerFinds(text, from, p);
    }
  }

  /** A well-formed open marker at or after `from` means `FirstMarker` finds one, no later than it. */
  lemma {:induction false} FirstMarkerFinds(text: string, from: nat, p: nat)
    requires from <= p
    ensures OpenAt(text, p).Some? ==> FirstMarker(text, from).Some? && FirstMarker(text, from).value <= p
    decreases p - from
  {
    FirstMarkerStep(text, from);
    if from < p {
      FirstMarkerFinds(text, from + 1, p);
    }
  }

  /** One step of the leftmost-marker scan. */
  lemma FirstMarkerStep(text: string, from: nat)
    ensures OpenAt(text, from).Some? ==> FirstMarker(text, from) == Some(from)
    ensures from < |text| && OpenAt(text, from).None? ==> FirstMarker(text, from) == FirstMarker(text, from + 1)
  {
  }

  /** `FirstMarker` finds nothing only when no well-formed open marker lies at or after `from`. */
  lemma FirstMarkerNone(text: string, from: nat)
    requires FirstMarker(text, from).None?
    ensures forall p :: from <= p ==> OpenAt(text, p).None?
  {
    forall p | from <= p
      ensures OpenAt(text, p).None?
    {
      FirstMarkerFinds(text, from, p);
    }
  }

  /** What `parseProjectFiles` returns for the accumulated text. */
  function Extract(text: string): (files: ProjectFiles)
  {
    var complete := Complete(text);
    match FirstMarker(text, 0)
    case None => complete
    case Some(p) =>
      var name := OpenAt(text, p).value;
      if name !in complete || complete[name] == "" then complete[name := text[Body(p, name)..]]
      else complete
  }

  /** When the leftmost open marker names a complete, non-empty file, the partial pass changes nothing. */
  lemma ExtractKeepsComplete(text: string)
    requires FirstMarker(text, 0).Some?
    requires var name := OpenAt(text, FirstMarker(text, 0).value).value;
      name in Complete(text) && Complete(text)[name] != ""
    ensures Extract(text) == Complete(text)
  {
  }

  /** The complete-block pass is the dictionary of the list of blocks. */
  lemma CompleteIsToMap(text: string)
    ensures Complete(text) == ToMap(Blocks(text, 0))
  {
    CollectBlocks(text, 0, map[]);
  }

  /** The global `exec` loop: every complete block stored under its name, a later one overwriting. */
  method CollectComplete(response: string) returns (files: ProjectFiles)
    ensures files == Complete(response)
  {
    files := map[];
    var pos: nat := 0;
    var m := NextBlock(response, pos);
    while m.Some?
      invariant Collect(response, pos, files) == Complete(response)
      invariant m == NextBlock(response, pos)
      decreases |response| - pos
    {
      var b := m.value;
      files := files[b.entry.name := b.entry.content];
      pos := b.next;
      m := NextBlock(response, pos);
    }
  }

  /** `parseProjectFiles`: the complete blocks, then the single partial match. */
  method ParseProjectFiles(response: string) returns (files: ProjectFiles)
    ensures files == Extract(response)
  {
    files := CollectComplete(response);
    var first := FirstMarker(response, 0);
    if first.Some? {
      var name := OpenAt(response, first.value).value;
      if name !in files || files[name] == "" {
        files := files[name := response[Body(first.value, name)..]];
      }
    }
  }

  // ---------------------------------------------------------------------------
  // Properties of the extractor

  /** The extraction is empty exactly when the text holds no well-formed open marker. */
  lemma ExtractEmptyIff(text: string)
    ensures Extract(text) == map[] <==> FirstMarker(text, 0).None?
  {
    match FirstMarker(text, 0)
    case None =>
      FirstMarkerNone(text, 0);
      NextBlockSound(text, 0);
      assert NextBlock(text, 0).None?;
      assert Complete(text) == map[];
    case Some(p) =>
      var name := OpenAt(text, p).value;
      assert name in Extract(text);
  }

  /**
   * Once the accumulated text holds a well-formed open marker, every longer
   * text does: extraction never becomes empty again as chunks arrive.
   */
  lemma MarkerPersists(text: string, more: string)
    requires FirstMarker(text, 0).Some?
    ensures FirstMarker(text + more, 0).Some?
  {
    var p := FirstMarker(text, 0).value;
    var name := OpenAt(text, p).value;
    var longer := text + more;
    IsAtExtend(text, more, OpenMarker, p);
    IsAtExtend(text, more, name + NameEnd, p + |OpenMarker|);
    OpenAtComplete(longer, p, name);
    FirstMarkerFinds(longer, 0, p);
  }

  /**
   * An open marker that starts before a well-formed one at `p` and is
   * well-formed once text is appended already ends, well-formed, before the
   * content of the marker at `p`: its name cannot run past the quote of `name="`.
   */
  lemma MarkerBefore(text: string, more: string, p: nat, q: nat)
    requires OpenAt(text, p).Some? && q < p
    ensures OpenAt(text + more, q).Some? ==>
      OpenAt(text, q) == OpenAt(text + more, q) &&
      Body(q, OpenAt(text, q).value) < Body(p, OpenAt(text, p).value)
  {
    var longer := text + more;
    if OpenAt(longer, q).Some? {
      var m := OpenAt(longer, q).value;
      var start := q + |OpenMarker|;
      var e := start + |m|;
      assert text[p..p + |OpenMarker|] == OpenMarker;
      assert longer[p + |OpenMarker| - 1] == '"';
      assert longer[start..e + |NameEnd|] == m + NameEnd;
      assert forall j :: start <= j < e ==> longer[j] == m[j - start];
      assert e <= p + |OpenMarker| - 1;
      assert longer[q..q + |OpenMarker|] == text[q..q + |OpenMarker|];
      assert longer[start..e + |NameEnd|] == text[start..e + |NameEnd|];
      OpenAtComplete(text, q, m);
    }
  }

  /** A complete block stays the same complete block when text is appended. */
  lemma BlockAtExtend(text: string, more: string, p: nat)
    ensures BlockAt(text, p).Some? ==> BlockAt(text + more, p) == BlockAt(text, p)
  {
    if BlockAt(text, p).Some? {
      var longer := text + more;
      var name := OpenAt(text, p).value;
      var body := Body(p, name);
      var c := FindFrom(text, CloseMarker, body).value;
      IsAtExtend(text, more, OpenMarker, p);
      IsAtExtend(text, more, name + NameEnd, p + |OpenMarker|);
      OpenAtComplete(longer, p, name);
      FindFromFirst(text, CloseMarker, body, c);
      assert IsAt(text, CloseMarker, c);
      forall j | body <= j < c
        ensures !IsAt(longer, CloseMarker, j)
      {
        assert !IsAt(text, CloseMarker, j);
        assert longer[j..j + |CloseMarker|] == text[j..j + |CloseMarker|];
      }
      IsAtExtend(text, more, CloseMarker, c);
      FindFromFinds(longer, CloseMarker, body, c);
      BlockAtOf(text, p, name, c);
      BlockAtOf(longer, p, name, c);
      assert longer[body..c] == text[body..c];
    }
  }

  /** Appended text completes no block that starts before a complete block. */
  lemma BlockBefore(text: string, more: string, p: nat, q: nat)
    requires BlockAt(text, p).Some? && q < p
    ensures BlockAt(text + more, q).Some? ==> BlockAt(text, q).Some?
  {
    if BlockAt(text + more, q).Some? {
      MarkerBefore(text, more, p, q);
      BlockAtSpec(text, p);
      var b := BlockAt(text, p).value;
      FindFromNone(text, CloseMarker, Body(q, OpenAt(text, q).value));
      assert IsAt(text, CloseMarker, Body(p, b.entry.name) + |b.entry.content|);
    }
  }

  /** The next complete block stays the next one when text is appended. */
  lemma NextBlockExtend(text: string, more: string, from: nat)
    ensures NextBlock(text, from).Some? ==> NextBlock(text + more, from) == NextBlock(text, from)
  {
    if NextBlock(text, from).Some? {
      var longer := text + more;
      var b := NextBlock(text, from).value;
      NextBlockSound(text, from);
      BlockAtExtend(text, more, b.start);
      NextBlockLeftmost(text, from, b);
      forall q | from <= q < b.start
        ensures BlockAt(longer, q).None?
      {
        BlockBefore(text, more, b.start, q);
      }
      NextBlockFinds(longer, from, b.start);
      NextBlockSound(longer, from);
      var found := NextBlock(longer, from).value;
      assert BlockAt(longer, found.start) == Some(found);
      assert found.start == b.start;
    }
  }

  /** The complete blocks of a text come first among those of any longer text. */
  lemma {:induction false} BlocksPrefix(text: string, more: string, from: nat)
    ensures Blocks(text, from) <= Blocks(text + more, from)
    decreases |text| - from
  {
    match NextBlock(text, from)
    case None =>
    case Some(b) =>
      NextBlockExtend(text, more, from);
      BlocksStep(text, from, b);
      BlocksStep(text + more, from, b);
      BlocksPrefix(text, more, b.next);
  }

  /** Every name of the complete-block pass stays a name as text is appended. */
  lemma CompleteKeysGrow(text: string, more: string)
    ensures Complete(text).Keys <= Complete(text + more).Keys
  {
    var short := Blocks(text, 0);
    var long := Blocks(text + more, 0);
    CompleteIsToMap(text);
    CompleteIsToMap(text + more);
    BlocksPrefix(text, more, 0);
    assert forall i :: 0 <= i < |short| ==> short[i] == long[i];
    StoreKeys(map[], short);
    StoreKeys(map[], long);
  }

  /** Appended text keeps the leftmost well-formed open marker where it was, with its name. */
  lemma FirstMarkerExtend(text: string, more: string)
    requires FirstMarker(text, 0).Some?
    ensures FirstMarker(text + more, 0) == FirstMarker(text, 0)
    ensures OpenAt(text + more, FirstMarker(text, 0).value) == OpenAt(text, FirstMarker(text, 0).value)
  {
    var p := FirstMarker(text, 0).value;
    var name := OpenAt(text, p).value;
    var longer := text + more;
    IsAtExtend(text, more, OpenMarker, p);
    IsAtExtend(text, more, name + NameEnd, p + |OpenMarker|);
    OpenAtComplete(longer, p, name);
    FirstMarkerLeftmost(text, 0, p);
    forall q | 0 <= q < p
      ensures OpenAt(longer, q).None?
    {
      MarkerBefore(text, more, p, q);
    }
    FirstMarkerFinds(longer, 0, p);
    FirstMarkerLeftmost(longer, 0, FirstMarker(longer, 0).value);
  }

  /**
   * Every file name found in the response is still found once more text has
   * arrived: the complete blocks stay, and the leftmost open marker stays,
   * either as the partial file or as a complete one.
   */
  lemma ExtractKeysGrow(text: string, more: string)
    ensures Extract(text).Keys <= Extract(text + more).Keys
  {
    CompleteKeysGrow(text, more);
    if FirstMarker(text, 0).Some? {
      FirstMarkerExtend(text, more);
    }
  }

  /**
   * Before any `</file>` has arrived the map holds exactly one file: the one
   * opened by the leftmost well-formed marker, with all text after that marker.
   */
  lemma OnlyPartial(text: string)
    requires !Contains(text, CloseMarker)
    ensures FirstMarker(text, 0).None? ==> Extract(text) == map[]
    ensures FirstMarker(text, 0).Some? ==>
      var p := FirstMarker(text, 0).value;
      var name := OpenAt(text, p).value;
      Extract(text) == map[name := text[Body(p, name)..]]
  {
    ContainsIff(text, CloseMarker);
    NextBlockClose(text, 0);
    assert NextBlock(text, 0).None?;
    assert Complete(text) == map[];
  }

  /** The text of one complete block. */
  function RenderEntry(e: Entry): string {
    OpenMarker + e.name + NameEnd + e.content + CloseMarker
  }

  /** Blocks written one after another, as the model is asked to emit them. */
  function Render(entries: seq<Entry>): string {
    if entries == [] then "" else RenderEntry(entries[0]) + Render(entries[1..])
  }

  /** A name the marker can carry and a content the first `</file>` ends exactly. */
  predicate WellFormed(e: Entry) {
    e.name != [] && '"' !in e.name && !Contains(e.content, CloseMarker)
  }

  /** Every entry well-formed. */
  predicate AllWellFormed(entries: seq<Entry>) {
    forall i :: 0 <= i < |entries| ==> WellFormed(entries[i])
  }

  /** Every entry has some content. */
  predicate AllNonEmpty(entries: seq<Entry>) {
    forall i :: 0 <= i < |entries| ==> entries[i].content != ""
  }

  /** No `</file>` starts at or after `from`. */
  predicate NoCloseFrom(text: string, from: int) {
    forall j :: from <= j < |text| ==> !IsAt(text, CloseMarker, j)
  }

  lemma CloseMarkerFirstChar()
    ensures |CloseMarker| > 0 && forall i :: 0 < i < |CloseMarker| ==> CloseMarker[i] != CloseMarker[0]
  {
  }

  /** The first `</file>` after a content free of it is the one right behind that content. */
  lemma FirstCloseAfter(text: string, body: nat, content: string)
    requires !Contains(content, CloseMarker) && IsAt(text, content + CloseMarker, body)
    ensures FindFrom(text, CloseMarker, body) == Some(body + |content|)
  {
    var c := body + |content|;
    ContainsIff(content, CloseMarker);
    IsAtSplit(text, content, CloseMarker, body);
    CloseMarkerFirstChar();
    forall j | body <= j < c
      ensures !IsAt(text, CloseMarker, j)
    {
      if j + |CloseMarker| <= c {
        assert forall i :: 0 <= i < |content| ==> content[i] == text[body + i];
        assert content[j - body..j - body + |CloseMarker|] == text[j..j + |CloseMarker|];
        assert !IsAt(content, CloseMarker, j - body);
      } else {
        OccurrenceEndsBefore(text, CloseMarker, j, c);
      }
    }
    FindFromFinds(text, CloseMarker, body, c);
  }

  /** The open marker of a rendered block is recognised, with the block's name. */
  lemma OpenAtRendered(text: string, p: nat, e: Entry)
    requires WellFormed(e) && IsAt(text, RenderEntry(e), p)
    ensures OpenAt(text, p) == Some(e.name)
    ensures IsAt(text, e.content + CloseMarker, Body(p, e.name))
  {
    IsAtSplit(text, OpenMarker + e.name + NameEnd, e.content + CloseMarker, p);
    IsAtSplit(text, OpenMarker, e.name + NameEnd, p);
    OpenAtComplete(text, p, e.name);
  }

  /** A rendered block is recognised where it stands, with its own name and content. */
  lemma BlockAtRendered(text: string, p: nat, e: Entry)
    requires WellFormed(e) && IsAt(text, RenderEntry(e), p)
    ensures BlockAt(text, p) == Some(Block(e, p, p + |RenderEntry(e)|))
  {
    OpenAtRendered(text, p, e);
    var body := Body(p, e.name);
    IsAtSplit(text, e.content, CloseMarker, body);
    FirstCloseAfter(text, body, e.content);
    var c := body + |e.content|;
    BlockAtOf(text, p, e.name, c);
    assert text[body..c] == e.content;
    assert |RenderEntry(e)| == |OpenMarker| + |e.name| + |NameEnd| + |e.content| + |CloseMarker|;
  }

  /** The first of several rendered blocks is the block the scan finds, and the rest follow it. */
  lemma RenderedStep(text: string, from: nat, entries: seq<Entry>) returns (b: Block)
    requires entries != [] && AllWellFormed(entries) && IsAt(text, Render(entries), from)
    ensures b == Block(entries[0], from, from + |RenderEntry(entries[0])|)
    ensures NextBlock(text, from) == Some(b)
    ensures IsAt(text, Render(entries[1..]), b.next)
    ensures b.next + |Render(entries[1..])| == from + |Render(entries)|
    ensures AllWellFormed(entries[1..])
  {
    assert WellFormed(entries[0]);
    IsAtSplit(text, RenderEntry(entries[0]), Render(entries[1..]), from);
    BlockAtRendered(text, from, entries[0]);
    NextBlockHere(text, from);
    b := Block(entries[0], from, from + |RenderEntry(entries[0])|);
  }

  /** Scanning rendered blocks recovers them in order. */
  lemma {:induction false} BlocksOfRendered(text: string, from: nat, entries: seq<Entry>)
    requires AllWellFormed(entries)
    requires IsAt(text, Render(entries), from)
    requires NoCloseFrom(text, from + |Render(entries)|)
    ensures Blocks(text, from) == entries
    decreases |entries|
  {
    if entries == [] {
      BlocksAfterLastClose(text, from);
    } else {
      var b := RenderedStep(text, from, entries);
      BlocksStep(text, from, b);
      BlocksOfRendered(text, b.next, entries[1..]);
      assert entries == [b.entry] + entries[1..];
    }
  }

  /** No complete block follows the last `</file>`. */
  lemma BlocksAfterLastClose(text: string, from: nat)
    requires NoCloseFrom(text, from)
    ensures Blocks(text, from) == []
  {
    NextBlockClose(text, from);
  }

  /** Text that starts with rendered blocks has its leftmost open marker at 0, the first block's. */
  lemma FirstMarkerOfRendered(text: string, entries: seq<Entry>)
    requires entries != [] && WellFormed(entries[0]) && IsAt(text, Render(entries), 0)
    ensures FirstMarker(text, 0) == Some(0) && OpenAt(text, 0) == Some(entries[0].name)
  {
    var e := entries[0];
    IsAtSplit(text, RenderEntry(e), Render(entries[1..]), 0);
    OpenAtRendered(text, 0, e);
    FirstMarkerStep(text, 0);
  }

  /** Text made of rendered, non-empty blocks and then no `</file>` extracts to their dictionary. */
  lemma ExtractOfRendered(text: string, entries: seq<Entry>)
    requires entries != [] && AllWellFormed(entries) && AllNonEmpty(entries)
    requires IsAt(text, Render(entries), 0) && NoCloseFrom(text, |Render(entries)|)
    ensures Extract(text) == ToMap(entries)
  {
    BlocksOfRendered(text, 0, entries);
    CompleteIsToMap(text);
    StoreNonEmpty(map[], entries);
    assert WellFormed(entries[0]);
    FirstMarkerOfRendered(text, entries);
    StoreKeys(map[], entries);
    assert entries[0].name in ToMap(entries);
    ExtractKeepsComplete(text);
  }

  /**
   * Round trip: extracting rendered, well-formed, non-empty files gives the
   * dictionary of those files, a later file of the same name winning.
   */
  lemma ExtractRendered(entries: seq<Entry>)
    requires AllWellFormed(entries) && AllNonEmpty(entries)
    ensures Extract(Render(entries)) == ToMap(entries)
  {
    var text := Render(entries);
    if entries != [] {
      assert text[0..|text|] == text;
      ExtractOfRendered(text, entries);
    }
  }

  /**
   * As written, the partial pass looks at the leftmost open marker, which is
   * the first complete block once one has arrived: a trailing, still-open
   * block after complete ones is not extracted at all.
   */
  lemma TrailingPartialDropped(entries: seq<Entry>, tail: string)
    requires entries != [] && AllWellFormed(entries) && AllNonEmpty(entries)
    requires !Contains(tail, CloseMarker)
    ensures Extract(Render(entries) + tail) == ToMap(entries)
  {
    var r := Render(entries);
    NoCloseInTail(r, tail);
    IsAtExtend(r, tail, r, 0);
    ExtractOfRendered(r + tail, entries);
  }

  /** A tail that holds no `</file>` puts none after the head. */
  lemma NoCloseInTail(head: string, tail: string)
    requires !Contains(tail, CloseMarker)
    ensures NoCloseFrom(head + tail, |head|)
  {
    ContainsIff(tail, CloseMarker);
    forall j | |head| <= j < |head + tail|
      ensures !IsAt(head + tail, CloseMarker, j)
    {
      IsAtSuffix(head, tail, CloseMarker, j);
    }
  }
}
