/**
 * The preview bundler (`bundleFilesForPreview`): two global `replace` passes
 * over `index.html`. The first inlines local stylesheets linked with
 * `<link …href="X.css"…>`. The second inlines local scripts loaded with
 * `<script …src="X.js"…></script>`.
 *
 * Each regular expression is an explicit matcher at the start of the remaining
 * text:
 * - `[^>]+` before the attribute is greedy. The attribute used is the last one
 *   that lets the rest match, searched downward from the first `>` after the
 *   tag name.
 * - The captured path is the whole quote-free run after the opening quote. It
 *   must end in the extension and be followed by a quote.
 * - `[^>]*` then runs to the first `>`, where the tag must end.
 */
module PreviewBundler {
  import opened Types
  import opened Text

  /**
   * The pieces of one of the two expressions: the literal tag start, the
   * attribute holding the path, the extension the path must end in, what the
   * tag ends with after the closing quote and `[^>]*`, and the element that
   * replaces an inlined tag around the file's content.
   */
  datatype Pattern = Pattern(open: string, attr: string, ext: string, tail: string, before: string, after: string)

  /** `/<link[^>]+href=["']([^"']+\.css)["'][^>]*>/g`, replaced by a `style` element. */
  const Link := Pattern("<link", "href=", ".css", ">", "<style>\n", "\n</style>")

  /** `/<script[^>]+src=["']([^"']+\.js)["'][^>]*><\/script>/g`, replaced by an inline `script` element. */
  const Script := Pattern("<script", "src=", ".js", "></script>", "<script>\n", "\n</script>")

  /** The tag's end starts with the `>` that `[^>]*` stops at, as in both expressions. */
  predicate EndsAtGt(k: Pattern) {
    |k.tail| > 0 && k.tail[0] == '>'
  }

  /**
   * A match at the start of the text: where the attribute starts, the captured
   * path and the length of the matched text.
   */
  datatype TagMatch = TagMatch(attr: nat, ref: string, len: nat)

  /** `t` ends with `x`. */
  predicate EndsWith(t: string, x: string) {
    |x| <= |t| && IsAt(t, x, |t| - |x|)
  }

  /** No quote character in `t`. */
  predicate QuoteFree(t: string) {
    forall i :: 0 <= i < |t| ==> !IsQuote(t[i])
  }

  /**
   * The rest of the expression, from the attribute at `h` on, in words: the
   * attribute, a quote, the path (quote-free, longer than the extension and
   * ending in it), a quote, then no `>` until the tail, which ends the match.
   */
  predicate AttrShape(s: string, k: Pattern, h: nat, m: TagMatch) {
    var g := h + |k.attr| + 1;
    var e := g + |m.ref|;
    var gt := m.len - |k.tail|;
    && m.attr == h
    && IsAt(s, k.attr, h)
    && e < |s| && IsQuote(s[g - 1]) && IsQuote(s[e])
    && IsAt(s, m.ref, g) && QuoteFree(m.ref)
    && |m.ref| > |k.ext| && EndsWith(m.ref, k.ext)
    && e < gt && IsAt(s, k.tail, gt)
    && (forall j :: e < j < gt ==> s[j] != '>')
  }

  /** The rest of the expression tried with the attribute at `h`. */
  function AttrAt(s: string, k: Pattern, h: nat): (r: Option<TagMatch>)
    ensures r.Some? ==> r.value.attr == h < r.value.len <= |s|
  {
    var q := h + |k.attr|;
    if !IsAt(s, k.attr, h) || q >= |s| || !IsQuote(s[q]) then None
    else
      var e := QuoteIndex(s, q + 1);
      if e == |s| || e - (q + 1) <= |k.ext| || !IsAt(s, k.ext, e - |k.ext|) then None
      else
        var gt := IndexOf(s, '>', e + 1);
        if IsAt(s, k.tail, gt) then Some(TagMatch(h, s[q + 1..e], gt + |k.tail|)) else None
  }

  /** What `AttrAt` finds has the shape the expression describes. */
  lemma AttrAtSound(s: string, k: Pattern, h: nat)
    ensures AttrAt(s, k, h).Some? ==> AttrShape(s, k, h, AttrAt(s, k, h).value)
  {
    var q := h + |k.attr|;
    if AttrAt(s, k, h).Some? {
      var m := AttrAt(s, k, h).value;
      var e := QuoteIndex(s, q + 1);
      QuoteIndexFirst(s, q + 1);
      IndexOfFirst(s, '>', e + 1);
      assert m.ref == s[q + 1..e];
      assert m.ref[|m.ref| - |k.ext|..] == s[e - |k.ext|..e];
    }
  }

  /** `AttrAt` from the positions of the opening quote, the closing quote and the first `>` after it. */
  lemma AttrAtOf(s: string, k: Pattern, h: nat, e: nat, gt: nat)
    requires IsAt(s, k.attr, h) && h + |k.attr| < e < |s| && IsQuote(s[h + |k.attr|])
    requires QuoteIndex(s, h + |k.attr| + 1) == e && IndexOf(s, '>', e + 1) == gt
    ensures e - (h + |k.attr| + 1) > |k.ext| && IsAt(s, k.ext, e - |k.ext|) && IsAt(s, k.tail, gt) ==>
      AttrAt(s, k, h) == Some(TagMatch(h, s[h + |k.attr| + 1..e], gt + |k.tail|))
  {
  }

  /** Text of the expression's shape is what `AttrAt` finds. */
  lemma AttrAtComplete(s: string, k: Pattern, h: nat, m: TagMatch)
    requires EndsAtGt(k) && AttrShape(s, k, h, m)
    ensures AttrAt(s, k, h) == Some(m)
  {
    var g := h + |k.attr| + 1;
    var e := g + |m.ref|;
    var gt := m.len - |k.tail|;
    assert s[g..e] == m.ref;
    assert forall j :: g <= j < e ==> s[j] == m.ref[j - g];
    QuoteIndexFinds(s, g, e);
    assert s[e - |k.ext|..e] == m.ref[|m.ref| - |k.ext|..];
    assert s[gt] == '>';
    IndexOfFinds(s, '>', e + 1, gt);
    assert IsAt(s, k.ext, e - |k.ext|);
    assert m == TagMatch(h, s[g..e], gt + |k.tail|);
    AttrAtOf(s, k, h, e, gt);
  }

  /** `[^>]+` giving back one character at a time: attribute positions from `h` down to just after the tag name. */
  function SearchAttr(s: string, k: Pattern, h: nat): (r: Option<TagMatch>)
    decreases h
    ensures r.Some? ==> |k.open| < r.value.attr <= h && r.value.attr < r.value.len <= |s|
  {
    if h <= |k.open| then None
    else match AttrAt(s, k, h)
      case Some(m) => Some(m)
      case None => SearchAttr(s, k, h - 1)
  }

  /** One step of the downward search. */
  lemma SearchAttrStep(s: string, k: Pattern, h: nat)
    ensures |k.open| < h && AttrAt(s, k, h).Some? ==> SearchAttr(s, k, h) == AttrAt(s, k, h)
    ensures |k.open| < h && AttrAt(s, k, h).None? ==> SearchAttr(s, k, h) == SearchAttr(s, k, h - 1)
  {
  }

  /** The search returns a match of the rest of the expression at the position it reports. */
  lemma {:induction false} SearchAttrHit(s: string, k: Pattern, h: nat)
    ensures SearchAttr(s, k, h).Some? ==> AttrAt(s, k, SearchAttr(s, k, h).value.attr) == SearchAttr(s, k, h)
    decreases h
  {
    SearchAttrStep(s, k, h);
    if |k.open| < h && AttrAt(s, k, h).None? {
      SearchAttrHit(s, k, h - 1);
    }
  }

  /** A position in range where the rest matches means the search succeeds, at that position or a later one. */
  lemma {:induction false} SearchAttrFinds(s: string, k: Pattern, h: nat, h0: nat)
    requires h0 <= h
    ensures |k.open| < h0 && AttrAt(s, k, h0).Some? ==>
      SearchAttr(s, k, h).Some? && h0 <= SearchAttr(s, k, h).value.attr
    decreases h - h0
  {
    SearchAttrStep(s, k, h);
    if h0 < h {
      SearchAttrFinds(s, k, h - 1, h0);
    }
  }

  /** The greedy `[^>]+` takes the last attribute position that works: none later does. */
  lemma SearchAttrLast(s: string, k: Pattern, h: nat, m: TagMatch)
    requires SearchAttr(s, k, h) == Some(m)
    ensures forall h' :: m.attr < h' <= h ==> AttrAt(s, k, h').None?
  {
    forall h' | m.attr < h' <= h
      ensures AttrAt(s, k, h').None?
    {
      SearchAttrFinds(s, k, h, h');
    }
  }

  /** The search fails only when no attribute position in range works. */
  lemma SearchAttrNone(s: string, k: Pattern, h: nat)
    requires SearchAttr(s, k, h).None?
    ensures forall h' :: |k.open| < h' <= h ==> AttrAt(s, k, h').None?
  {
    forall h' | |k.open| < h' <= h
      ensures AttrAt(s, k, h').None?
    {
      SearchAttrFinds(s, k, h, h');
    }
  }

  /** The first `>` at or after the end of the tag name: `[^>]+` stops before it. */
  function AttrLimit(s: string, k: Pattern): nat
    requires |k.open| <= |s|
  {
    IndexOf(s, '>', |k.open|)
  }

  /** One match of the expression at the start of `s`. */
  function TagPrefix(s: string, k: Pattern): (r: Option<TagMatch>)
    ensures r.Some? ==> |k.open| < r.value.attr < r.value.len <= |s|
  {
    if IsAt(s, k.open, 0) then SearchAttr(s, k, AttrLimit(s, k)) else None
  }

  /**
   * The whole expression in words: the tag name, at least one character
   * other than `>`, the rest of the expression at the attribute, and no later
   * attribute position before the first `>` that would also do.
   */
  predicate TagShape(s: string, k: Pattern, m: TagMatch) {
    && IsAt(s, k.open, 0)
    && |k.open| < m.attr <= AttrLimit(s, k)
    && (forall j :: |k.open| <= j < m.attr ==> s[j] != '>')
    && AttrShape(s, k, m.attr, m)
    && (forall h :: m.attr < h <= AttrLimit(s, k) ==> AttrAt(s, k, h).None?)
  }

  /** What `TagPrefix` finds has the shape of the expression. */
  lemma TagPrefixSound(s: string, k: Pattern)
    ensures TagPrefix(s, k).Some? ==> TagShape(s, k, TagPrefix(s, k).value)
  {
    if TagPrefix(s, k).Some? {
      var m := TagPrefix(s, k).value;
      var limit := AttrLimit(s, k);
      SearchAttrHit(s, k, limit);
      AttrAtSound(s, k, m.attr);
      SearchAttrLast(s, k, limit, m);
      IndexOfFirst(s, '>', |k.open|);
    }
  }

  /** Text of the expression's shape is what `TagPrefix` finds. */
  lemma TagPrefixComplete(s: string, k: Pattern, m: TagMatch)
    requires EndsAtGt(k) && TagShape(s, k, m)
    ensures TagPrefix(s, k) == Some(m)
  {
    var limit := AttrLimit(s, k);
    AttrAtComplete(s, k, m.attr, m);
    SearchAttrFinds(s, k, limit, m.attr);
    SearchAttrHit(s, k, limit);
    var r := SearchAttr(s, k, limit).value;
    assert r.attr == m.attr;
    assert TagPrefix(s, k) == SearchAttr(s, k, limit);
  }

  /** The path captured by a match ends in the tag's extension. */
  lemma TagPrefixRef(s: string, k: Pattern)
    ensures TagPrefix(s, k).Some? ==>
      var ref := TagPrefix(s, k).value.ref;
      |ref| > |k.ext| && EndsWith(ref, k.ext)
  {
    TagPrefixSound(s, k);
  }

  /** `files[path]` is truthy: present and non-empty. */
  predicate Inlinable(files: ProjectFiles, path: string) {
    path in files && files[path] != ""
  }

  /** The global `replace`: every match, left to right and not overlapping, inlined when its file is available. */
  function Replace(s: string, files: ProjectFiles, k: Pattern): string
    decreases |s|
  {
    if s == [] then []
    else match TagPrefix(s, k)
      case Some(m) =>
        (if Inlinable(files, m.ref) then k.before + files[m.ref] + k.after else s[..m.len])
        + Replace(s[m.len..], files, k)
      case None => [s[0]] + Replace(s[1..], files, k)
  }

  /** `bundleFilesForPreview`: `index.html` with its stylesheets, then its scripts, inlined. */
  function Bundle(files: ProjectFiles): string {
    var html := if "index.html" in files then files["index.html"] else "";
    if html == "" then "" else Replace(Replace(html, files, Link), files, Script)
  }

  /** The two passes run over a non-empty `index.html`. */
  lemma BundleOf(files: ProjectFiles)
    ensures Inlinable(files, "index.html")
      ==> Bundle(files) == Replace(Replace(files["index.html"], files, Link), files, Script)
  {
  }

  /** Replacing never empties a non-empty text. */
  lemma ReplaceNonEmpty(s: string, files: ProjectFiles, k: Pattern)
    ensures s != [] ==> Replace(s, files, k) != []
  {
  }

  /** The preview is empty exactly when `index.html` is missing or empty. */
  lemma BundleEmptyIff(files: ProjectFiles)
    ensures Bundle(files) == "" <==> !Inlinable(files, "index.html")
  {
    if Inlinable(files, "index.html") {
      var html := files["index.html"];
      ReplaceNonEmpty(html, files, Link);
      ReplaceNonEmpty(Replace(html, files, Link), files, Script);
    }
  }

  /** The match at the start of `t`, if any, leaves `t` as it is. */
  predicate Untouched(files: ProjectFiles, k: Pattern, t: string) {
    TagPrefix(t, k).None? || !Inlinable(files, TagPrefix(t, k).value.ref)
  }

  /** How much of `s` one step of the replacement consumes: the match, or one character. */
  function Consumed(s: string, k: Pattern): (n: nat)
    requires s != []
    ensures 0 < n <= |s|
  {
    match TagPrefix(s, k)
    case Some(m) => m.len
    case None => 1
  }

  /** A step that leaves its text as it is. */
  lemma ReplaceKeeps(s: string, files: ProjectFiles, k: Pattern)
    requires s != [] && Untouched(files, k, s)
    ensures Replace(s, files, k) == s[..Consumed(s, k)] + Replace(s[Consumed(s, k)..], files, k)
  {
    if TagPrefix(s, k).None? {
      assert s[..1] == [s[0]];
    }
  }

  /** No match anywhere in `s` has an available file. */
  predicate NothingInlined(s: string, files: ProjectFiles, k: Pattern) {
    forall i :: 0 <= i < |s| ==> Untouched(files, k, s[i..])
  }

  /** What holds of a text holds of its suffixes. */
  lemma NothingInlinedSuffix(s: string, files: ProjectFiles, k: Pattern, n: nat)
    requires n <= |s| && NothingInlined(s, files, k)
    ensures NothingInlined(s[n..], files, k)
  {
    var t := s[n..];
    forall i | 0 <= i < |t|
      ensures Untouched(files, k, t[i..])
    {
      assert t[i..] == s[n + i..];
    }
  }

  /** A text in which no match has an available file comes through unchanged. */
  lemma {:induction false} ReplaceUnchanged(s: string, files: ProjectFiles, k: Pattern)
    requires NothingInlined(s, files, k)
    ensures Replace(s, files, k) == s
    decreases |s|
  {
    if s != [] {
      assert s[0..] == s;
      ReplaceKeeps(s, files, k);
      var n := Consumed(s, k);
      NothingInlinedSuffix(s, files, k, n);
      ReplaceUnchanged(s[n..], files, k);
      assert s == s[..n] + s[n..];
    }
  }

  /** No `c` in `t`. */
  predicate Free(t: string, c: char) {
    forall i :: 0 <= i < |t| ==> t[i] != c
  }

  /** No tag start begins in the first `n` characters of `s`. */
  predicate NoStart(s: string, k: Pattern, n: nat) {
    forall i :: 0 <= i < n ==> !IsAt(s, k.open, i)
  }

  /** A text in which no tag start begins comes through unchanged, whatever follows it. */
  lemma {:induction false} ReplaceText(t: string, rest: string, files: ProjectFiles, k: Pattern)
    requires NoStart(t + rest, k, |t|)
    ensures Replace(t + rest, files, k) == t + Replace(rest, files, k)
    decreases |t|
  {
    var s := t + rest;
    if t != [] {
      assert !IsAt(s, k.open, 0);
      assert s[1..] == t[1..] + rest;
      NoStartShift(s, k, |t|);
      ReplaceText(t[1..], rest, files, k);
      assert t == [t[0]] + t[1..];
    } else {
      assert s == rest;
    }
  }

  /** Dropping the first character keeps the text free of tag starts. */
  lemma NoStartShift(s: string, k: Pattern, n: nat)
    requires 0 < n <= |s| && NoStart(s, k, n)
    ensures NoStart(s[1..], k, n - 1)
  {
    forall i | 0 <= i < n - 1
      ensures !IsAt(s[1..], k.open, i)
    {
      assert !IsAt(s, k.open, i + 1);
      if i + |k.open| <= |s| - 1 {
        assert s[1..][i..i + |k.open|] == s[i + 1..i + 1 + |k.open|];
      }
    }
  }

  /** Text without the tag start's first character holds no tag start. */
  lemma FreeNoStart(t: string, rest: string, k: Pattern)
    requires |k.open| > 0 && Free(t, k.open[0])
    ensures NoStart(t + rest, k, |t|)
  {
    forall i | 0 <= i < |t|
      ensures !IsAt(t + rest, k.open, i)
    {
      assert (t + rest)[i] == t[i];
      if i + |k.open| <= |t + rest| {
        assert (t + rest)[i..i + |k.open|][0] == t[i];
      }
    }
  }

  /**
   * What both expressions rely on: a tag start and an attribute free of `>`,
   * an attribute free of quotes whose last character the extension does not
   * end with, and a tail that starts with `>`.
   */
  predicate Distinct(k: Pattern) {
    && |k.open| > 0 && Free(k.open, '>')
    && |k.attr| > 0 && Free(k.attr, '>') && QuoteFree(k.attr)
    && |k.ext| > 0 && k.attr[|k.attr| - 1] != k.ext[|k.ext| - 1]
    && EndsAtGt(k)
  }

  lemma PatternsDistinct()
    ensures Distinct(Link) && Distinct(Script)
  {
  }

  /** A path the expression captures whole: quote-free, without `>`, longer than the extension and ending in it. */
  predicate Path(k: Pattern, ref: string) {
    QuoteFree(ref) && Free(ref, '>') && |ref| > |k.ext| && EndsWith(ref, k.ext)
  }

  /** A tag written the way generated pages write it, with `attrs` between the tag start and the attribute. */
  function Tag(k: Pattern, attrs: string, ref: string): string {
    k.open + attrs + k.attr + "\"" + ref + "\"" + k.tail
  }

  /**
   * `s` starts with a tag written the usual way, with `n` characters free of
   * `>` between the tag start and the attribute, and the path `ref`.
   */
  predicate Written(s: string, k: Pattern, n: nat, ref: string) {
    var h := |k.open| + n;
    var e := h + |k.attr| + 1 + |ref|;
    && IsAt(s, k.tail, e + 1)
    && IsAt(s, k.open, 0)
    && (forall j :: |k.open| <= j < h ==> s[j] != '>')
    && IsAt(s, k.attr, h) && s[h + |k.attr|] == '"'
    && IsAt(s, ref, h + |k.attr| + 1) && s[e] == '"'
  }

  /** A text that starts with a tag is laid out as `Written` says. */
  lemma TagLayout(k: Pattern, attrs: string, ref: string, rest: string)
    requires Free(attrs, '>')
    ensures Written(Tag(k, attrs, ref) + rest, k, |attrs|, ref)
    ensures |Tag(k, attrs, ref)| == |k.open| + |attrs| + |k.attr| + 2 + |ref| + |k.tail|
  {
    var s := Tag(k, attrs, ref) + rest;
    var h := |k.open| + |attrs|;
    var e := h + |k.attr| + 1 + |ref|;
    assert s == k.open + attrs + k.attr + "\"" + ref + "\"" + k.tail + rest;
    assert s[..|k.open|] == k.open;
    assert s[|k.open|..h] == attrs;
    assert forall j :: |k.open| <= j < h ==> s[j] == attrs[j - |k.open|];
    assert s[h..h + |k.attr|] == k.attr;
    assert s[h + |k.attr| + 1..e] == ref;
    assert s[e + 1..e + 1 + |k.tail|] == k.tail;
  }

  /** In a written tag, no `>` comes before the one right after the closing quote. */
  lemma WrittenNoGt(s: string, k: Pattern, n: nat, ref: string)
    requires Distinct(k) && Path(k, ref) && Written(s, k, n, ref)
    ensures forall j :: |k.open| <= j <= |k.open| + n + |k.attr| + 1 + |ref| ==> s[j] != '>'
  {
    var h := |k.open| + n;
    var g := h + |k.attr| + 1;
    var e := g + |ref|;
    forall j | |k.open| <= j <= e
      ensures s[j] != '>'
    {
      if h <= j < g - 1 {
        assert s[h..h + |k.attr|][j - h] == k.attr[j - h];
      } else if g <= j < e {
        assert s[g..e][j - g] == ref[j - g];
      }
    }
  }

  /** In a written tag, `[^>]+` may run up to the `>` right after the closing quote. */
  lemma WrittenLimit(s: string, k: Pattern, n: nat, ref: string)
    requires Distinct(k) && Path(k, ref) && Written(s, k, n, ref)
    ensures AttrLimit(s, k) == |k.open| + n + |k.attr| + 2 + |ref|
  {
    var e := |k.open| + n + |k.attr| + 1 + |ref|;
    WrittenNoGt(s, k, n, ref);
    assert s[e + 1..e + 1 + |k.tail|][0] == k.tail[0];
    IndexOfFinds(s, '>', |k.open|, e + 1);
  }

  /** No attribute position after the tag's own one, up to that `>`, lets the rest of the expression match. */
  lemma NoLaterAttr(s: string, k: Pattern, n: nat, ref: string, h': nat)
    requires Distinct(k) && Path(k, ref) && Written(s, k, n, ref)
    requires |k.open| + n < h' <= |k.open| + n + |k.attr| + 2 + |ref|
    ensures AttrAt(s, k, h').None?
  {
    var h := |k.open| + n;
    var g := h + |k.attr| + 1;
    var e := g + |ref|;
    var c := h' + |k.attr|;
    AttrAtSound(s, k, h');
    if c < e {
      assert s[g..e][c - g] == ref[c - g];
    } else if c == e {
      assert s[e - 1] == ref[|ref| - 1] == k.ext[|k.ext| - 1];
      assert s[h'..c][|k.attr| - 1] != k.attr[|k.attr| - 1];
    } else if c == e + 1 {
      assert s[h'..c][e - h'] == s[e];
      assert !IsQuote(k.attr[e - h']);
    } else if c <= |s| {
      assert s[e + 1..e + 1 + |k.tail|][0] == k.tail[0];
      assert s[h'..c][e + 1 - h'] == s[e + 1] == '>';
      assert k.attr[e + 1 - h'] != '>';
    }
  }

  /** The rest of the expression matches at a written tag's own attribute. */
  lemma WrittenAttrShape(s: string, k: Pattern, n: nat, ref: string)
    requires Path(k, ref) && Written(s, k, n, ref)
    ensures var h := |k.open| + n;
      AttrShape(s, k, h, TagMatch(h, ref, h + |k.attr| + 2 + |ref| + |k.tail|))
  {
  }

  /** The expression matches a written tag, capturing its path. */
  lemma WrittenTagPrefix(s: string, k: Pattern, n: nat, ref: string)
    requires Distinct(k) && n > 0 && Path(k, ref) && Written(s, k, n, ref)
    ensures TagPrefix(s, k) == Some(TagMatch(|k.open| + n, ref, |k.open| + n + |k.attr| + 2 + |ref| + |k.tail|))
  {
    var h := |k.open| + n;
    var m := TagMatch(h, ref, h + |k.attr| + 2 + |ref| + |k.tail|);
    WrittenLimit(s, k, n, ref);
    WrittenAttrShape(s, k, n, ref);
    forall h' | h < h' <= AttrLimit(s, k)
      ensures AttrAt(s, k, h').None?
    {
      NoLaterAttr(s, k, n, ref, h');
    }
    TagPrefixComplete(s, k, m);
  }

  /** The expression matches a tag written the usual way, capturing its path. */
  lemma TagPrefixOfTag(k: Pattern, attrs: string, ref: string, rest: string)
    requires Distinct(k) && attrs != [] && Free(attrs, '>') && Path(k, ref)
    ensures TagPrefix(Tag(k, attrs, ref) + rest, k)
      == Some(TagMatch(|k.open| + |attrs|, ref, |Tag(k, attrs, ref)|))
  {
    TagLayout(k, attrs, ref, rest);
    WrittenTagPrefix(Tag(k, attrs, ref) + rest, k, |attrs|, ref);
  }

  /**
   * A tag written the usual way becomes the file's content between the
   * element's tags when the file is available, and is kept otherwise; the
   * scan resumes right after it.
   */
  lemma ReplaceTag(k: Pattern, attrs: string, ref: string, rest: string, files: ProjectFiles)
    requires Distinct(k) && attrs != [] && Free(attrs, '>') && Path(k, ref)
    ensures Replace(Tag(k, attrs, ref) + rest, files, k)
      == (if Inlinable(files, ref) then k.before + files[ref] + k.after else Tag(k, attrs, ref))
         + Replace(rest, files, k)
  {
    var t := Tag(k, attrs, ref);
    var s := t + rest;
    TagPrefixOfTag(k, attrs, ref, rest);
    assert s[..|t|] == t;
    assert s[|t|..] == rest;
  }

  /** A path in `files` that one of the passes could inline. */
  predicate Asset(files: ProjectFiles, path: string) {
    Inlinable(files, path) && (EndsWith(path, Link.ext) || EndsWith(path, Script.ext))
  }

  /** With no available file of the pattern's extension, no match has anything to inline. */
  lemma NothingToInline(s: string, files: ProjectFiles, k: Pattern)
    requires forall p :: Inlinable(files, p) ==> !EndsWith(p, k.ext)
    ensures NothingInlined(s, files, k)
  {
    forall i | 0 <= i < |s|
      ensures Untouched(files, k, s[i..])
    {
      TagPrefixRef(s[i..], k);
    }
  }

  /** A project without stylesheets or scripts previews its `index.html` exactly as written. */
  lemma BundleWithoutAssets(files: ProjectFiles)
    requires forall p :: !Asset(files, p)
    ensures Bundle(files) == (if "index.html" in files then files["index.html"] else "")
  {
    var html := if "index.html" in files then files["index.html"] else "";
    forall p | Inlinable(files, p)
      ensures !EndsWith(p, Link.ext) && !EndsWith(p, Script.ext)
    {
      assert !Asset(files, p);
    }
    if html != "" {
      NothingToInline(html, files, Link);
      ReplaceUnchanged(html, files, Link);
      NothingToInline(html, files, Script);
      ReplaceUnchanged(html, files, Script);
    }
  }

  /** The `style` element the first pass writes holds no `<script` for the second pass to find. */
  lemma StyleHasNoScript(css: string, post: string)
    requires Free(css, '<')
    ensures NoStart(Link.before + css + Link.after + post, Script, |Link.before + css + Link.after|)
  {
    var x := Link.before + css + Link.after;
    var s := x + post;
    var c := |Link.before| + |css|;
    forall i | 0 <= i < |x|
      ensures !IsAt(s, Script.open, i)
    {
      if i == 0 {
        assert s[2] == 't';
        MismatchNotAt(s, Script.open, i, 2);
      } else if i < |Link.before| {
        assert s[i] == Link.before[i];
        MismatchNotAt(s, Script.open, i, 0);
      } else if i < c {
        assert s[i] == css[i - |Link.before|];
        MismatchNotAt(s, Script.open, i, 0);
      } else if i == c + 1 {
        assert s[i + 1] == '/';
        MismatchNotAt(s, Script.open, i, 1);
      } else {
        assert s[i] == Link.after[i - c];
        MismatchNotAt(s, Script.open, i, 0);
      }
    }
  }

  /** The replacement leaves a text without the tag start's first character as it is. */
  lemma ReplacePlain(t: string, files: ProjectFiles, k: Pattern)
    requires |k.open| > 0 && Free(t, k.open[0])
    ensures Replace(t, files, k) == t
  {
    FreeNoStart(t, "", k);
    assert t + "" == t;
    ReplaceText(t, "", files, k);
  }

  /** The stylesheet pass puts the file's content in a `style` element in place of the link. */
  lemma LinkPass(files: ProjectFiles, pre: string, attrs: string, ref: string, post: string)
    requires Free(pre, '<') && Free(post, '<')
    requires attrs != [] && Free(attrs, '>') && Path(Link, ref) && Inlinable(files, ref)
    ensures Replace(pre + Tag(Link, attrs, ref) + post, files, Link)
      == pre + (Link.before + files[ref] + Link.after + post)
  {
    var tag := Tag(Link, attrs, ref);
    PatternsDistinct();
    assert pre + tag + post == pre + (tag + post);
    FreeNoStart(pre, tag + post, Link);
    ReplaceText(pre, tag + post, files, Link);
    ReplaceTag(Link, attrs, ref, post, files);
    ReplacePlain(post, files, Link);
  }

  /** The script pass then leaves that text as it is. */
  lemma ScriptPassStyle(files: ProjectFiles, pre: string, css: string, post: string)
    requires Free(pre, '<') && Free(post, '<') && Free(css, '<')
    ensures Replace(pre + (Link.before + css + Link.after + post), files, Script)
      == pre + (Link.before + css + Link.after + post)
  {
    var style := Link.before + css + Link.after;
    FreeNoStart(pre, style + post, Script);
    ReplaceText(pre, style + post, files, Script);
    StyleHasNoScript(css, post);
    ReplaceText(style, post, files, Script);
    ReplacePlain(post, files, Script);
  }

  /**
   * A page with one stylesheet link, between text without tags, is previewed
   * with the stylesheet's content in a `style` element in its place.
   */
  lemma BundleStylesheet(files: ProjectFiles, pre: string, attrs: string, ref: string, post: string)
    requires "index.html" in files && files["index.html"] == pre + Tag(Link, attrs, ref) + post
    requires Free(pre, '<') && Free(post, '<')
    requires attrs != [] && Free(attrs, '>') && Path(Link, ref)
    requires Inlinable(files, ref) && Free(files[ref], '<')
    ensures Bundle(files) == pre + (Link.before + files[ref] + Link.after + post)
  {
    LinkPass(files, pre, attrs, ref, post);
    ScriptPassStyle(files, pre, files[ref], post);
    BundleOf(files);
  }
}
