/**
 * One translation pass of translator.js (translatePage), over an abstract page.
 *
 * The page is the list of elements the pass looks at, in document order, each with its
 * displayed text, its data-evrth-original and data-translated attributes, whether the
 * candidate selector matched it, and whether it sits inside #language-switcher, #wpadminbar
 * or .skip-translate. localStorage is a map from key to text. The network is a list of
 * outcomes, one per request, in the order the requests are made.
 *
 * The pass: clear every data-translated mark; scan the candidates, skipping excluded and
 * trivial texts, capturing the original text once and applying cached translations; cut the
 * misses into chunks of 100; send the chunks one after the other, writing each returned
 * translation into its element and into the cache, and stop at the first chunk that fails.
 */
module Translator {
  import opened Optional
  import opened JsText
  import CacheKey
  import opened Chunking

  /** The site's own language: choosing it reloads the page instead of translating. */
  const SourceLang: string := "ja"
  const ChunkSize: nat := 100
  const AlertPrefix: string := "翻訳エラー: "
  const DefaultErrorMessage: string := "翻訳APIリクエスト中にエラーが発生しました。"

  datatype Element = Element(
    text: string,              // textContent
    original: Option<string>,  // data-evrth-original
    translated: bool,          // data-translated="true"
    selected: bool,            // matched by the candidate selector
    inLanguageSwitcher: bool,  // el.closest('#language-switcher')
    inAdminBar: bool,          // el.closest('#wpadminbar')
    inSkipTranslate: bool)     // el.closest('.skip-translate')

  /** An entry of textsToTranslate: the text sent, the element it belongs to, its cache key. */
  datatype Pending = Pending(text: string, node: nat, cacheKey: string)

  /** What one chunk request comes back with. */
  datatype Response =
    | Translated(translations: seq<string>)  // success: the translatedText of each item, in order
    | Rejected(message: string)              // success === false, with data.message
    | Unreadable                             // fetch or res.json() threw

  datatype PassResult =
    | ReloadRequested                                      // the source language was chosen
    | NothingToSend                                        // every candidate was skipped or cached
    | Completed(sent: seq<seq<string>>)                    // every chunk was translated
    | Aborted(sent: seq<seq<string>>, alert: Option<string>) // the last chunk sent failed

  /** The page state the pass reads and writes. */
  datatype View = View(elements: seq<Element>, storage: map<string, string>)

  // ---------------------------------------------------------------- the scan

  predicate Excluded(e: Element) {
    e.inLanguageSwitcher || e.inAdminBar || e.inSkipTranslate
  }

  /** The element is looked at and its trimmed text is worth translating. */
  predicate Eligible(e: Element) {
    e.selected && !Excluded(e) && !SkipText(Trim(e.text))
  }

  /** getAttribute('data-evrth-original') is truthy: present and not empty. */
  predicate HasOriginal(e: Element) {
    e.original.Some? && e.original.value != ""
  }

  /** The text translated for the element: the captured original if there is one, else its trimmed text. */
  function OriginalText(e: Element): string {
    if HasOriginal(e) then e.original.value else Trim(e.text)
  }

  function KeyOf(e: Element, lang: string): string {
    CacheKey.Key(lang, OriginalText(e))
  }

  /** localStorage.getItem(key) is truthy: present and not empty. */
  predicate Cached(storage: map<string, string>, key: string) {
    key in storage && storage[key] != ""
  }

  predicate IsMiss(e: Element, lang: string, storage: map<string, string>) {
    Eligible(e) && !Cached(storage, KeyOf(e, lang))
  }

  function Cleared(es: seq<Element>): (r: seq<Element>)
    ensures |r| == |es|
  {
    seq(|es|, i requires 0 <= i < |es| => es[i].(translated := false))
  }

  /** What the scan does to one element. */
  function ScanOne(e: Element, lang: string, storage: map<string, string>): Element {
    if !Eligible(e) then e
    else
      var captured := e.(original := Some(OriginalText(e)));
      var key := KeyOf(e, lang);
      if Cached(storage, key) then captured.(text := storage[key], translated := true) else captured
  }

  /**
   * Only the captured original, the text and the mark of a scanned element can change, and an
   * original already captured is kept. An eligible element records the original it is looked up
   * with; when that original has a cached translation it shows it, marked. A miss keeps its text
   * and mark, and an element that is not eligible is left alone.
   */
  lemma ScanOneEffect(e: Element, lang: string, storage: map<string, string>)
    ensures var r := ScanOne(e, lang, storage);
      && r == e.(original := r.original, text := r.text, translated := r.translated)
      && (HasOriginal(e) ==> r.original == e.original)
      && (!Eligible(e) ==> r == e)
      && (Eligible(e) ==> r.original == Some(OriginalText(e)))
      && (Eligible(e) && Cached(storage, KeyOf(e, lang)) ==> r.text == storage[KeyOf(e, lang)] && r.translated)
      && (!Cached(storage, KeyOf(e, lang)) ==> r.text == e.text && r.translated == e.translated)
  {
  }

  function Scanned(es: seq<Element>, lang: string, storage: map<string, string>): (r: seq<Element>)
    ensures |r| == |es|
  {
    seq(|es|, i requires 0 <= i < |es| => ScanOne(es[i], lang, storage))
  }

  /** The queue entry of element i: its original text, its index and that text's cache key. */
  function Entry(es: seq<Element>, lang: string, i: nat): (p: Pending)
    requires i < |es|
    ensures p.node == i
  {
    Pending(OriginalText(es[i]), i, KeyOf(es[i], lang))
  }

  /** For each element, whether the scan queues it. */
  function MissFlags(es: seq<Element>, lang: string, storage: map<string, string>): (r: seq<bool>)
    ensures |r| == |es|
  {
    seq(|es|, i requires 0 <= i < |es| => IsMiss(es[i], lang, storage))
  }

  function Entries(es: seq<Element>, lang: string): (r: seq<Pending>)
    ensures |r| == |es|
  {
    seq(|es|, i requires 0 <= i < |es| => Entry(es, lang, i))
  }

  lemma EntriesIndexed(es: seq<Element>, lang: string)
    ensures forall i :: 0 <= i < |es| ==> Entries(es, lang)[i].node == i
  {
  }

  /** The entries among the first n whose flag is set, in order. */
  function Select(keep: seq<bool>, entries: seq<Pending>, n: nat): seq<Pending>
    requires n <= |keep| && n <= |entries|
  {
    if n == 0 then [] else Select(keep, entries, n - 1) + (if keep[n - 1] then [entries[n - 1]] else [])
  }

  /**
   * textsToTranslate after the scan has looked at the first n elements: in document order,
   * each element at most once, all among the first n.
   */
  function Misses(es: seq<Element>, lang: string, storage: map<string, string>, n: nat): (q: seq<Pending>)
    requires n <= |es|
    ensures NodesIncreasing(q) && NodesWithin(q, n)
  {
    EntriesIndexed(es, lang);
    SelectSound(MissFlags(es, lang, storage), Entries(es, lang), n);
    Select(MissFlags(es, lang, storage), Entries(es, lang), n)
  }

  predicate NodesIncreasing(q: seq<Pending>) {
    forall a, b :: 0 <= a < b < |q| ==> q[a].node < q[b].node
  }

  ghost predicate NodesWithin(q: seq<Pending>, n: nat) {
    forall j :: 0 <= j < |q| ==> q[j].node < n
  }

  /** Entries whose node field is their own index. */
  ghost predicate Indexed(entries: seq<Pending>) {
    forall i :: 0 <= i < |entries| ==> entries[i].node == i
  }

  /** A selection lists selected entries only, in index order, each at most once. */
  lemma {:induction false} SelectSound(keep: seq<bool>, entries: seq<Pending>, n: nat)
    requires n <= |keep| && n <= |entries| && Indexed(entries)
    ensures NodesIncreasing(Select(keep, entries, n)) && NodesWithin(Select(keep, entries, n), n)
    ensures forall p | p in Select(keep, entries, n) :: p.node < n && keep[p.node] && entries[p.node] == p
  {
    if n > 0 {
      SelectSound(keep, entries, n - 1);
      var q0 := Select(keep, entries, n - 1);
      var q := Select(keep, entries, n);
      assert q == q0 + (if keep[n - 1] then [entries[n - 1]] else []);
      forall j | 0 <= j < |q0| ensures q[j] == q0[j] {
      }
    }
  }

  /** A selection lists every selected entry. */
  lemma {:induction false} SelectComplete(keep: seq<bool>, entries: seq<Pending>, n: nat, i: nat)
    requires i < n <= |keep| && n <= |entries| && keep[i]
    ensures entries[i] in Select(keep, entries, n)
  {
    if i < n - 1 {
      SelectComplete(keep, entries, n - 1, i);
    }
  }

  /** What the scan queues for element i: its entry when it is a miss, nothing otherwise. */
  function ScanEntry(es: seq<Element>, lang: string, storage: map<string, string>, i: nat): seq<Pending>
    requires i < |es|
  {
    if IsMiss(es[i], lang, storage) then [Entry(es, lang, i)] else []
  }

  /** Looking at one more element appends its entry when it is a miss. */
  lemma MissesStep(es: seq<Element>, lang: string, storage: map<string, string>, i: nat)
    requires i < |es|
    ensures Misses(es, lang, storage, i + 1) == Misses(es, lang, storage, i) + ScanEntry(es, lang, storage, i)
  {
  }

  /** Scanning one more element extends the scanned prefix. */
  lemma ScannedStep(es: seq<Element>, lang: string, storage: map<string, string>, i: nat, before: seq<Element>, after: seq<Element>)
    requires i < |es| && before == Scanned(es, lang, storage)[..i] + es[i..]
    requires after == before[i := ScanOne(es[i], lang, storage)]
    ensures after == Scanned(es, lang, storage)[..i + 1] + es[i + 1..]
  {
    PrefixStep(Scanned(es, lang, storage), es, i, before, after);
  }

  /** Overwriting index i of "done up to i, old from i" with the done element gives "done up to i + 1". */
  lemma PrefixStep<T>(done: seq<T>, es: seq<T>, i: nat, before: seq<T>, after: seq<T>)
    requires i < |es| == |done| && before == done[..i] + es[i..] && after == before[i := done[i]]
    ensures after == done[..i + 1] + es[i + 1..]
  {
    assert done[..i + 1] == done[..i] + [done[i]];
  }

  /** p is the queue entry of an element that is eligible and uncached: its original text and that text's key. */
  predicate Describes(es: seq<Element>, lang: string, storage: map<string, string>, p: Pending) {
    p.node < |es| && IsMiss(es[p.node], lang, storage) &&
    p.text == OriginalText(es[p.node]) && p.cacheKey == KeyOf(es[p.node], lang)
  }

  /** Each entry of textsToTranslate is an eligible, uncached element with its original text (not its displayed text). */
  lemma MissesSound(es: seq<Element>, lang: string, storage: map<string, string>, n: nat)
    requires n <= |es|
    ensures forall p | p in Misses(es, lang, storage, n) :: Describes(es, lang, storage, p)
  {
    EntriesIndexed(es, lang);
    SelectSound(MissFlags(es, lang, storage), Entries(es, lang), n);
  }

  /** Every eligible element whose original has no cached translation is queued. */
  lemma MissesComplete(es: seq<Element>, lang: string, storage: map<string, string>, n: nat, i: nat)
    requires i < n <= |es| && IsMiss(es[i], lang, storage)
    ensures Entry(es, lang, i) in Misses(es, lang, storage, n)
  {
    SelectComplete(MissFlags(es, lang, storage), Entries(es, lang), n, i);
  }

  function TextsOf(q: seq<Pending>): (r: seq<string>)
    ensures |r| == |q| && forall j :: 0 <= j < |q| ==> r[j] == q[j].text
  {
    seq(|q|, j requires 0 <= j < |q| => q[j].text)
  }

  /** The text of pending item j is sent as item j % 100 of chunk j / 100, the chunk whose nodes slice holds item j. */
  lemma TextsAlignWithChunks(q: seq<Pending>, j: nat)
    requires j < |q|
    ensures var chunks := Chunks(TextsOf(q), ChunkSize);
      j / ChunkSize < |chunks| && j % ChunkSize < |chunks[j / ChunkSize]| &&
      chunks[j / ChunkSize][j % ChunkSize] == q[j].text
  {
    ChunkItem(TextsOf(q), ChunkSize, j);
  }

  // ---------------------------------------------------------------- the requests

  /** What the request for chunk c comes back with; a request beyond the listed outcomes throws. */
  function Outcome(rs: seq<Response>, c: nat): Response {
    if c < |rs| then rs[c] else Unreadable
  }

  /** What String(undefined) gives: localStorage.setItem stores it when a reply is short. */
  const UndefinedText: string := "undefined"

  /** The text an item displays after its chunk was translated: translated[idx], or nothing when the reply is short. */
  function Shown(r: Response, idx: nat): string
    requires r.Translated?
  {
    if idx < |r.translations| then r.translations[idx] else ""
  }

  /** The text cached for an item after its chunk was translated. */
  function Stored(r: Response, idx: nat): string
    requires r.Translated?
  {
    if idx < |r.translations| then r.translations[idx] else UndefinedText
  }

  /** The index of the first chunk whose request fails, or count when none of the first count does. */
  function FirstFailure(rs: seq<Response>, count: nat): (k: nat)
    ensures k <= count
    ensures forall c :: 0 <= c < k ==> Outcome(rs, c).Translated?
    ensures k < count ==> !Outcome(rs, k).Translated?
  {
    if count == 0 then 0
    else
      var k := FirstFailure(rs, count - 1);
      if k < count - 1 then k else if Outcome(rs, count - 1).Translated? then count else count - 1
  }

  /** The three properties of FirstFailure determine it. */
  lemma {:induction false} FirstFailureIs(rs: seq<Response>, count: nat, k: nat)
    requires k <= count
    requires forall c :: 0 <= c < k ==> Outcome(rs, c).Translated?
    requires k < count ==> !Outcome(rs, k).Translated?
    ensures FirstFailure(rs, count) == k
  {
  }

  /** Per request, whether its promise resolves: the outcomes processChunksSequentially sees. */
  function Oks(rs: seq<Response>): (ok: seq<bool>)
    ensures forall c: nat :: Resolves(ok, c) <==> Outcome(rs, c).Translated?
  {
    seq(|rs|, c requires 0 <= c < |rs| => rs[c].Translated?)
  }

  /** The first failed chunk is the first call whose promise rejects. */
  lemma FailureIsRejection(rs: seq<Response>, count: nat)
    ensures FirstFailure(rs, count) == FirstRejected(Oks(rs), count)
  {
    FirstFailureIs(rs, count, FirstRejected(Oks(rs), count));
  }

  /** The alert shown for a failed chunk: none when the request itself threw. */
  function AlertOf(r: Response): Option<string> {
    match r
    case Rejected(message) => Some(AlertPrefix + (if message != "" then message else DefaultErrorMessage))
    case _ => None
  }

  /** The chunks of the first m pending items all came back translated. */
  ghost predicate Answered(rs: seq<Response>, m: nat) {
    forall j :: 0 <= j < m ==> Outcome(rs, j / ChunkSize).Translated?
  }

  /** Items of the chunks before the first failure are answered. */
  lemma AnsweredBefore(rs: seq<Response>, k: nat, m: nat)
    requires forall c :: 0 <= c < k ==> Outcome(rs, c).Translated?
    requires m <= k * ChunkSize
    ensures Answered(rs, m)
  {
  }

  /** Item idx of chunk index is pending item index * ChunkSize + idx. */
  lemma ChunkPosition(index: nat, idx: nat)
    requires idx < ChunkSize
    ensures (index * ChunkSize + idx) / ChunkSize == index && (index * ChunkSize + idx) % ChunkSize == idx
  {
  }

  /** Chunk index + 1 starts ChunkSize items after chunk index. */
  lemma NextChunkStart(index: nat)
    ensures (index + 1) * ChunkSize == index * ChunkSize + ChunkSize
  {
  }

  /** Writing one translation back: the element's text and mark, and the cache entry. */
  function ApplyOne(v: View, p: Pending, shown: string, stored: string): View
    requires p.node < |v.elements|
  {
    View(v.elements[p.node := v.elements[p.node].(text := shown, translated := true)], v.storage[p.cacheKey := stored])
  }

  /** The state after the first m pending items have been given their translations, in order. */
  function ApplyFirst(v: View, q: seq<Pending>, rs: seq<Response>, m: nat): (r: View)
    requires m <= |q| && NodesWithin(q, |v.elements|) && Answered(rs, m)
    ensures |r.elements| == |v.elements|
    ensures v.storage.Keys <= r.storage.Keys
  {
    if m == 0 then v
    else
      var r := Outcome(rs, (m - 1) / ChunkSize);
      var idx := (m - 1) % ChunkSize;
      ApplyOne(ApplyFirst(v, q, rs, m - 1), q[m - 1], Shown(r, idx), Stored(r, idx))
  }

  /** Writing item idx of chunk index: the text and the cache entry that chunk's reply gives it. */
  lemma ApplyFirstStep(v: View, q: seq<Pending>, rs: seq<Response>, index: nat, idx: nat)
    requires idx < ChunkSize && index * ChunkSize + idx < |q| && NodesWithin(q, |v.elements|)
    requires Answered(rs, index * ChunkSize + idx + 1)
    ensures var m := index * ChunkSize + idx; var r := Outcome(rs, index);
      && r.Translated?
      && ApplyFirst(v, q, rs, m + 1) == ApplyOne(ApplyFirst(v, q, rs, m), q[m], Shown(r, idx), Stored(r, idx))
  {
    ChunkPosition(index, idx);
  }

  /** An element that no written item targets keeps its state. */
  lemma {:induction false} ApplyFirstFrame(v: View, q: seq<Pending>, rs: seq<Response>, m: nat, i: nat)
    requires m <= |q| && NodesWithin(q, |v.elements|) && Answered(rs, m) && i < |v.elements|
    requires forall j :: 0 <= j < m ==> q[j].node != i
    ensures ApplyFirst(v, q, rs, m).elements[i] == v.elements[i]
  {
    if m > 0 {
      ApplyFirstFrame(v, q, rs, m - 1, i);
    }
  }

  /** The element of the j-th written item shows that item's translation and carries the mark. */
  lemma {:induction false} ApplyFirstWritten(v: View, q: seq<Pending>, rs: seq<Response>, m: nat, j: nat)
    requires m <= |q| && NodesWithin(q, |v.elements|) && Answered(rs, m) && NodesIncreasing(q) && j < m
    ensures var r := Outcome(rs, j / ChunkSize);
      ApplyFirst(v, q, rs, m).elements[q[j].node] ==
        v.elements[q[j].node].(text := Shown(r, j % ChunkSize), translated := true)
  {
    if j == m - 1 {
      ApplyFirstFrame(v, q, rs, m - 1, q[j].node);
    } else {
      ApplyFirstWritten(v, q, rs, m - 1, j);
    }
  }

  /** Only the displayed text and the mark of an element change. */
  predicate DisplayOnly(a: Element, b: Element) {
    b == a.(text := b.text, translated := b.translated)
  }

  lemma {:induction false} ApplyFirstDisplayOnly(v: View, q: seq<Pending>, rs: seq<Response>, m: nat, i: nat)
    requires m <= |q| && NodesWithin(q, |v.elements|) && Answered(rs, m) && i < |v.elements|
    ensures DisplayOnly(v.elements[i], ApplyFirst(v, q, rs, m).elements[i])
  {
    if m > 0 {
      ApplyFirstDisplayOnly(v, q, rs, m - 1, i);
    }
  }

  /** A cache key that no written item uses keeps its entry (or its absence). */
  lemma {:induction false} ApplyFirstStorageFrame(v: View, q: seq<Pending>, rs: seq<Response>, m: nat, key: string)
    requires m <= |q| && NodesWithin(q, |v.elements|) && Answered(rs, m)
    requires forall j :: 0 <= j < m ==> q[j].cacheKey != key
    ensures var s := ApplyFirst(v, q, rs, m).storage;
      (key in s <==> key in v.storage) && (key in s ==> s[key] == v.storage[key])
  {
    if m > 0 {
      ApplyFirstStorageFrame(v, q, rs, m - 1, key);
    }
  }

  /** The cache holds, under each key written, the text of the last item written with that key. */
  lemma {:induction false} ApplyFirstStorageLast(v: View, q: seq<Pending>, rs: seq<Response>, m: nat, j: nat)
    requires m <= |q| && NodesWithin(q, |v.elements|) && Answered(rs, m) && j < m
    requires forall j' :: j < j' < m ==> q[j'].cacheKey != q[j].cacheKey
    ensures var s := ApplyFirst(v, q, rs, m).storage;
      q[j].cacheKey in s && s[q[j].cacheKey] == Stored(Outcome(rs, j / ChunkSize), j % ChunkSize)
  {
    if j < m - 1 {
      ApplyFirstStorageLast(v, q, rs, m - 1, j);
    }
  }

  /** No translated chunk holds an empty translation. */
  ghost predicate NoEmptyTranslation(rs: seq<Response>) {
    forall c, t :: 0 <= c < |rs| && rs[c].Translated? && t in rs[c].translations ==> t != ""
  }

  /** When nothing empty is written, a cached key stays cached and every written key becomes cached. */
  lemma {:induction false} ApplyFirstCached(v: View, q: seq<Pending>, rs: seq<Response>, m: nat, key: string)
    requires m <= |q| && NodesWithin(q, |v.elements|) && Answered(rs, m) && NoEmptyTranslation(rs)
    requires Cached(v.storage, key) || exists j :: 0 <= j < m && q[j].cacheKey == key
    ensures Cached(ApplyFirst(v, q, rs, m).storage, key)
  {
    if m > 0 {
      var j := m - 1;
      var r := Outcome(rs, j / ChunkSize);
      var idx := j % ChunkSize;
      assert Stored(r, idx) != "" by {
        if idx < |r.translations| {
          assert r.translations[idx] in r.translations;
        }
      }
      if q[j].cacheKey != key {
        ApplyFirstCached(v, q, rs, m - 1, key);
      }
    }
  }

  // ---------------------------------------------------------------- the whole pass

  function PassQueue(es: seq<Element>, lang: string, storage: map<string, string>): seq<Pending> {
    Misses(Cleared(es), lang, storage, |es|)
  }

  /** The number of pending items written back: those of the chunks before the first failure. */
  function Written(q: seq<Pending>, rs: seq<Response>): (m: nat)
    ensures m <= |q| && Answered(rs, m)
    ensures var n := |Chunks(TextsOf(q), ChunkSize)|;
      m == (if FirstFailure(rs, n) < n then FirstFailure(rs, n) * ChunkSize else |q|)
  {
    var k := FirstFailure(rs, |Chunks(TextsOf(q), ChunkSize)|);
    ChunkCount(TextsOf(q), ChunkSize);
    AnsweredBefore(rs, k, Min(k * ChunkSize, |q|));
    Min(k * ChunkSize, |q|)
  }

  /** The pass as a function: the page and cache it leaves, and how it ended. */
  function Pass(v: View, lang: string, rs: seq<Response>): (r: (View, PassResult))
    ensures |r.0.elements| == |v.elements| && v.storage.Keys <= r.0.storage.Keys
    ensures r.1 == ReloadRequested <==> lang == SourceLang
    ensures r.1 == NothingToSend ==> r.0.storage == v.storage
  {
    if lang == SourceLang then (v, ReloadRequested)
    else
      var cleared := Cleared(v.elements);
      var q := PassQueue(v.elements, lang, v.storage);
      var scanned := View(Scanned(cleared, lang, v.storage), v.storage);
      if q == [] then (scanned, NothingToSend)
      else
        var chunks := Chunks(TextsOf(q), ChunkSize);
        var k := FirstFailure(rs, |chunks|);
        (ApplyFirst(scanned, q, rs, Written(q, rs)),
         if k == |chunks| then Completed(chunks) else Aborted(chunks[..k + 1], AlertOf(Outcome(rs, k))))
  }
}
