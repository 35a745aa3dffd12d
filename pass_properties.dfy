/**
 * What one pass of translatePage guarantees, proved about the function Pass that the
 * method Page.TranslatePage is proved to follow.
 */
module PassProperties {
  import opened Optional
  import opened Chunking
  import opened Translator

  /** Clearing the marks changes nothing the scan looks at. */
  lemma ClearedAt(es: seq<Element>, lang: string, storage: map<string, string>, i: nat)
    requires i < |es|
    ensures Cleared(es)[i] == es[i].(translated := false)
    ensures Eligible(Cleared(es)[i]) == Eligible(es[i])
    ensures OriginalText(Cleared(es)[i]) == OriginalText(es[i])
    ensures KeyOf(Cleared(es)[i], lang) == KeyOf(es[i], lang)
    ensures IsMiss(Cleared(es)[i], lang, storage) == IsMiss(es[i], lang, storage)
  {
  }

  /** The state before any translation is written back: marks cleared, originals captured, cache hits shown. */
  function ScannedView(v: View, lang: string): View {
    View(Scanned(Cleared(v.elements), lang, v.storage), v.storage)
  }

  /** The queue is ordered, within the page, and lists exactly the eligible uncached elements. */
  lemma QueueFacts(v: View, lang: string)
    ensures var q := PassQueue(v.elements, lang, v.storage);
      && NodesIncreasing(q) && NodesWithin(q, |v.elements|)
      && (forall p | p in q :: Describes(Cleared(v.elements), lang, v.storage, p))
  {
    var cleared := Cleared(v.elements);
    MissesSound(cleared, lang, v.storage, |cleared|);
  }

  /** Choosing the site's own language reloads the page and changes nothing. */
  lemma SourceLanguageReloads(v: View, rs: seq<Response>)
    ensures Pass(v, SourceLang, rs) == (v, ReloadRequested)
  {
  }

  /** An element the scan skips (not a candidate, excluded, or a trivial text) only loses its mark. */
  lemma SkippedElement(v: View, lang: string, rs: seq<Response>, i: nat)
    requires lang != SourceLang && i < |v.elements| && !Eligible(v.elements[i])
    ensures Pass(v, lang, rs).0.elements[i] == v.elements[i].(translated := false)
  {
    var q := PassQueue(v.elements, lang, v.storage);
    ClearedAt(v.elements, lang, v.storage, i);
    QueueFacts(v, lang);
    if q != [] {
      forall j | 0 <= j < Written(q, rs) ensures q[j].node != i {
        assert q[j] in q;
      }
      ApplyFirstFrame(ScannedView(v, lang), q, rs, Written(q, rs), i);
    }
  }

  /** An eligible element whose original has a cached translation shows it, marked, and is never sent. */
  lemma CacheHit(v: View, lang: string, rs: seq<Response>, i: nat)
    requires lang != SourceLang && i < |v.elements| && Eligible(v.elements[i])
    requires Cached(v.storage, KeyOf(v.elements[i], lang))
    ensures var e := v.elements[i];
      Pass(v, lang, rs).0.elements[i] ==
        e.(original := Some(OriginalText(e)), text := v.storage[KeyOf(e, lang)], translated := true)
  {
    var q := PassQueue(v.elements, lang, v.storage);
    ClearedAt(v.elements, lang, v.storage, i);
    QueueFacts(v, lang);
    if q != [] {
      forall j | 0 <= j < Written(q, rs) ensures q[j].node != i {
        assert q[j] in q;
      }
      ApplyFirstFrame(ScannedView(v, lang), q, rs, Written(q, rs), i);
    }
  }

  /** Every eligible element without a cached translation is queued, with its original text and key. */
  lemma MissQueued(v: View, lang: string, i: nat)
    requires i < |v.elements| && IsMiss(v.elements[i], lang, v.storage)
    ensures Pending(OriginalText(v.elements[i]), i, KeyOf(v.elements[i], lang)) in PassQueue(v.elements, lang, v.storage)
  {
    var cleared := Cleared(v.elements);
    ClearedAt(v.elements, lang, v.storage, i);
    MissesComplete(cleared, lang, v.storage, |cleared|, i);
  }

  /**
   * The j-th queued item belongs to an eligible, uncached element. If its chunk and every chunk
   * before it came back translated, the element shows the translation, marked; otherwise it keeps
   * its text, unmarked. Either way its original text is captured.
   */
  lemma QueuedElement(v: View, lang: string, rs: seq<Response>, j: nat)
    requires lang != SourceLang && j < |PassQueue(v.elements, lang, v.storage)|
    ensures PassQueue(v.elements, lang, v.storage)[j].node < |v.elements|
    ensures var q := PassQueue(v.elements, lang, v.storage);
      var i, k := q[j].node, FirstFailure(rs, |Chunks(TextsOf(q), ChunkSize)|);
      var e := v.elements[i];
      && IsMiss(e, lang, v.storage)
      && q[j].text == OriginalText(e) && q[j].cacheKey == KeyOf(e, lang)
      && Pass(v, lang, rs).0.elements[i] ==
         if j / ChunkSize < k
         then e.(original := Some(q[j].text), text := Shown(Outcome(rs, j / ChunkSize), j % ChunkSize), translated := true)
         else e.(original := Some(q[j].text), translated := false)
  {
    var q := PassQueue(v.elements, lang, v.storage);
    var i := q[j].node;
    QueueFacts(v, lang);
    assert q[j] in q;
    ClearedAt(v.elements, lang, v.storage, i);
    var m := Written(q, rs);
    var k := FirstFailure(rs, |Chunks(TextsOf(q), ChunkSize)|);
    if j / ChunkSize < k {
      assert j < m;
      ApplyFirstWritten(ScannedView(v, lang), q, rs, m, j);
    } else {
      assert m <= j;
      forall j' | 0 <= j' < m ensures q[j'].node != i {
        assert q[j'].node < q[j].node;
      }
      ApplyFirstFrame(ScannedView(v, lang), q, rs, m, i);
    }
  }

  /** A pass changes no element's selection, exclusion or captured original beyond the capture itself. */
  lemma DisplayOnlyAfterScan(v: View, lang: string, rs: seq<Response>, i: nat)
    requires lang != SourceLang && i < |v.elements|
    ensures var e, after := v.elements[i], Pass(v, lang, rs).0.elements[i];
      after == e.(original := after.original, text := after.text, translated := after.translated)
      && (HasOriginal(e) ==> after.original == e.original)
  {
    var q := PassQueue(v.elements, lang, v.storage);
    ClearedAt(v.elements, lang, v.storage, i);
    QueueFacts(v, lang);
    if q != [] {
      ApplyFirstDisplayOnly(ScannedView(v, lang), q, rs, Written(q, rs), i);
    }
  }

  /** No request is made exactly when every eligible element's original already has a cached translation. */
  lemma NothingToSendIffWarm(v: View, lang: string, rs: seq<Response>)
    requires lang != SourceLang
    ensures Pass(v, lang, rs).1 == NothingToSend <==> forall i :: 0 <= i < |v.elements| ==> !IsMiss(v.elements[i], lang, v.storage)
    ensures Pass(v, lang, rs).1 == NothingToSend ==> Pass(v, lang, rs).0.storage == v.storage
  {
    var q := PassQueue(v.elements, lang, v.storage);
    if q == [] {
      forall i | 0 <= i < |v.elements| ensures !IsMiss(v.elements[i], lang, v.storage) {
        if IsMiss(v.elements[i], lang, v.storage) {
          MissQueued(v, lang, i);
        }
      }
    } else {
      QueueFacts(v, lang);
      assert q[0] in q;
      ClearedAt(v.elements, lang, v.storage, q[0].node);
    }
  }

  /** On completion every queued text was sent exactly once, in order, in chunks of at most 100. */
  lemma CompletedSentAll(v: View, lang: string, rs: seq<Response>)
    requires lang != SourceLang && Pass(v, lang, rs).1.Completed?
    ensures var q, sent := PassQueue(v.elements, lang, v.storage), Pass(v, lang, rs).1.sent;
      && Flatten(sent) == TextsOf(q)
      && (forall c :: 0 <= c < |sent| ==> 0 < |sent[c]| <= ChunkSize)
      && (forall c :: 0 <= c < |sent| ==> Outcome(rs, c).Translated?)
      && Written(q, rs) == |q|
  {
    var q := PassQueue(v.elements, lang, v.storage);
    ChunksPartition(TextsOf(q), ChunkSize);
    ChunkCount(TextsOf(q), ChunkSize);
  }

  /**
   * On failure the requests stop at the failed chunk: the chunks before it were sent and came
   * back translated, the failed one was sent, nothing after it; the alert follows the failure.
   */
  lemma AbortedStopsAtFailure(v: View, lang: string, rs: seq<Response>)
    requires lang != SourceLang && Pass(v, lang, rs).1.Aborted?
    ensures var q, res := PassQueue(v.elements, lang, v.storage), Pass(v, lang, rs).1;
      var chunks, n := Chunks(TextsOf(q), ChunkSize), |res.sent|;
      && 0 < n <= |chunks| && res.sent == chunks[..n]
      && (forall c :: 0 <= c < n - 1 ==> Outcome(rs, c).Translated?)
      && !Outcome(rs, n - 1).Translated?
      && res.alert == AlertOf(Outcome(rs, n - 1))
      && Written(q, rs) == (n - 1) * ChunkSize < |q|
  {
    var q := PassQueue(v.elements, lang, v.storage);
    var chunks := Chunks(TextsOf(q), ChunkSize);
    var k := FirstFailure(rs, |chunks|);
    assert q != [] && k < |chunks|;
    assert Pass(v, lang, rs).1 == Aborted(chunks[..k + 1], AlertOf(Outcome(rs, k)));
    ChunkAt(TextsOf(q), ChunkSize, k);
    assert Written(q, rs) == k * ChunkSize;
  }

  /**
   * The chunks a pass sends are exactly the calls processChunksSequentially makes over the
   * chunk list with size 1: call c gets [chunk c] and index c, and the calls stop at the first
   * request that fails.
   */
  lemma SentAreCalls(v: View, lang: string, rs: seq<Response>)
    requires lang != SourceLang && (Pass(v, lang, rs).1.Completed? || Pass(v, lang, rs).1.Aborted?)
    ensures var q, sent := PassQueue(v.elements, lang, v.storage), Pass(v, lang, rs).1.sent;
      var calls := Calls(Chunks(TextsOf(q), ChunkSize), 1, Oks(rs));
      |calls| == |sent| && forall c :: 0 <= c < |sent| ==> calls[c] == ([sent[c]], c)
  {
    var q := PassQueue(v.elements, lang, v.storage);
    var chunks := Chunks(TextsOf(q), ChunkSize);
    UnitCalls(chunks, Oks(rs));
    FailureIsRejection(rs, |chunks|);
  }

  /** A rejected request alerts its message, or the default message when it has none; a thrown one alerts nothing. */
  lemma AlertText(r: Response)
    ensures r.Rejected? && r.message != "" ==> AlertOf(r) == Some(AlertPrefix + r.message)
    ensures r.Rejected? && r.message == "" ==> AlertOf(r) == Some(AlertPrefix + DefaultErrorMessage)
    ensures r.Unreadable? ==> AlertOf(r) == None
  {
  }

  /** Cache keys that no written item uses keep their entries. */
  lemma StorageFrame(v: View, lang: string, rs: seq<Response>, key: string)
    requires lang != SourceLang
    requires forall p | p in PassQueue(v.elements, lang, v.storage) :: p.cacheKey != key
    ensures var s := Pass(v, lang, rs).0.storage;
      (key in s <==> key in v.storage) && (key in s ==> s[key] == v.storage[key])
  {
    var q := PassQueue(v.elements, lang, v.storage);
    if q != [] {
      QueueFacts(v, lang);
      forall j | 0 <= j < Written(q, rs) ensures q[j].cacheKey != key {
        assert q[j] in q;
      }
      ApplyFirstStorageFrame(ScannedView(v, lang), q, rs, Written(q, rs), key);
    }
  }

  /** A written item's key holds its text, unless a later written item has the same key. */
  lemma StorageWritten(v: View, lang: string, rs: seq<Response>, j: nat)
    requires lang != SourceLang
    requires j < Written(PassQueue(v.elements, lang, v.storage), rs)
    requires var q := PassQueue(v.elements, lang, v.storage);
      forall j' :: j < j' < Written(q, rs) ==> q[j'].cacheKey != q[j].cacheKey
    ensures var q, s := PassQueue(v.elements, lang, v.storage), Pass(v, lang, rs).0.storage;
      q[j].cacheKey in s && s[q[j].cacheKey] == Stored(Outcome(rs, j / ChunkSize), j % ChunkSize)
  {
    var q := PassQueue(v.elements, lang, v.storage);
    QueueFacts(v, lang);
    ApplyFirstStorageLast(ScannedView(v, lang), q, rs, Written(q, rs), j);
  }

  /** The text an eligible element is translated from is never empty. */
  lemma EligibleOriginalNonEmpty(e: Element)
    requires Eligible(e)
    ensures OriginalText(e) != ""
  {
  }

  /** After the capture, an element's original text is the one it was queued or looked up with. */
  lemma CapturedOriginal(e: Element, lang: string, after: Element)
    requires Eligible(e) && after.original == Some(OriginalText(e))
    ensures OriginalText(after) == OriginalText(e) && KeyOf(after, lang) == KeyOf(e, lang)
  {
    EligibleOriginalNonEmpty(e);
  }

  /** After a completed pass with no empty translation, no element of the page is a miss. */
  lemma WarmAfterCompletion(v: View, lang: string, rs: seq<Response>, i: nat)
    requires lang != SourceLang && Pass(v, lang, rs).1.Completed? && NoEmptyTranslation(rs)
    requires i < |v.elements|
    ensures var w := Pass(v, lang, rs).0; !IsMiss(w.elements[i], lang, w.storage)
  {
    var w := Pass(v, lang, rs).0;
    var q := PassQueue(v.elements, lang, v.storage);
    var e := v.elements[i];
    if !Eligible(e) {
      SkippedElement(v, lang, rs, i);
    } else {
      CompletedSentAll(v, lang, rs);
      QueueFacts(v, lang);
      if Cached(v.storage, KeyOf(e, lang)) {
        CacheHit(v, lang, rs, i);
      } else {
        MissQueued(v, lang, i);
        var j :| 0 <= j < |q| && q[j] == Pending(OriginalText(e), i, KeyOf(e, lang));
        QueuedElement(v, lang, rs, j);
      }
      CapturedOriginal(e, lang, w.elements[i]);
      ApplyFirstCached(ScannedView(v, lang), q, rs, |q|, KeyOf(e, lang));
    }
  }

  /**
   * A pass that completed, with no empty translation among the replies, leaves a page whose next
   * pass to the same language sends nothing: every eligible element's original is then cached.
   */
  lemma SecondPassSendsNothing(v: View, lang: string, rs: seq<Response>, rs2: seq<Response>)
    requires lang != SourceLang && Pass(v, lang, rs).1.Completed? && NoEmptyTranslation(rs)
    ensures Pass(Pass(v, lang, rs).0, lang, rs2).1 == NothingToSend
  {
    var w := Pass(v, lang, rs).0;
    forall i | 0 <= i < |w.elements| ensures !IsMiss(w.elements[i], lang, w.storage) {
      WarmAfterCompletion(v, lang, rs, i);
    }
    NothingToSendIffWarm(w, lang, rs2);
  }

  /** Every chunk that came back translated has a translation for each of its items. */
  ghost predicate FullReplies(q: seq<Pending>, rs: seq<Response>) {
    forall j :: 0 <= j < |q| && Outcome(rs, j / ChunkSize).Translated? ==>
      j % ChunkSize < |Outcome(rs, j / ChunkSize).translations|
  }

  /** Queued items with the same text are given the same translation. */
  ghost predicate ConsistentReplies(q: seq<Pending>, rs: seq<Response>) {
    forall j, j' ::
      0 <= j < |q| && 0 <= j' < |q| && q[j].text == q[j'].text &&
      Outcome(rs, j / ChunkSize).Translated? && Outcome(rs, j' / ChunkSize).Translated? ==>
      Shown(Outcome(rs, j / ChunkSize), j % ChunkSize) == Shown(Outcome(rs, j' / ChunkSize), j' % ChunkSize)
  }

  /** The last queued item at or after j with the same cache key as item j. */
  lemma LastSameKey(q: seq<Pending>, j: nat) returns (l: nat)
    requires j < |q|
    decreases |q| - j
    ensures j <= l < |q| && q[l].cacheKey == q[j].cacheKey
    ensures forall j' :: l < j' < |q| ==> q[j'].cacheKey != q[j].cacheKey
  {
    if exists j' :: j < j' < |q| && q[j'].cacheKey == q[j].cacheKey {
      var j' :| j < j' < |q| && q[j'].cacheKey == q[j].cacheKey;
      l := LastSameKey(q, j');
    } else {
      l := j;
    }
  }

  /**
   * After a completed pass whose replies are full and translate equal texts alike, every element
   * the pass looked at shows exactly what the cache holds under its key.
   */
  lemma ShownIsCached(v: View, lang: string, rs: seq<Response>, i: nat)
    requires lang != SourceLang && Pass(v, lang, rs).1.Completed?
    requires FullReplies(PassQueue(v.elements, lang, v.storage), rs)
    requires ConsistentReplies(PassQueue(v.elements, lang, v.storage), rs)
    requires i < |v.elements| && Eligible(v.elements[i])
    ensures var w := Pass(v, lang, rs).0;
      var key := KeyOf(w.elements[i], lang);
      key in w.storage && w.storage[key] == w.elements[i].text
  {
    if Cached(v.storage, KeyOf(v.elements[i], lang)) {
      HitShownIsCached(v, lang, rs, i);
    } else {
      MissShownIsCached(v, lang, rs, i);
    }
  }

  /** The miss case of ShownIsCached: the element is queued, and its item's key holds what it shows. */
  lemma MissShownIsCached(v: View, lang: string, rs: seq<Response>, i: nat)
    requires lang != SourceLang && Pass(v, lang, rs).1.Completed?
    requires FullReplies(PassQueue(v.elements, lang, v.storage), rs)
    requires ConsistentReplies(PassQueue(v.elements, lang, v.storage), rs)
    requires i < |v.elements| && IsMiss(v.elements[i], lang, v.storage)
    ensures var w := Pass(v, lang, rs).0;
      var key := KeyOf(w.elements[i], lang);
      key in w.storage && w.storage[key] == w.elements[i].text
  {
    var q := PassQueue(v.elements, lang, v.storage);
    var e := v.elements[i];
    MissQueued(v, lang, i);
    var j :| 0 <= j < |q| && q[j] == Pending(OriginalText(e), i, KeyOf(e, lang));
    QueuedShownIsCached(v, lang, rs, j);
    QueuedElement(v, lang, rs, j);
    CapturedOriginal(e, lang, Pass(v, lang, rs).0.elements[i]);
  }

  /** The cache-hit case of ShownIsCached: no queued item has the key, so its entry stays. */
  lemma HitShownIsCached(v: View, lang: string, rs: seq<Response>, i: nat)
    requires lang != SourceLang
    requires i < |v.elements| && Eligible(v.elements[i]) && Cached(v.storage, KeyOf(v.elements[i], lang))
    ensures var w := Pass(v, lang, rs).0;
      var key := KeyOf(w.elements[i], lang);
      key in w.storage && w.storage[key] == w.elements[i].text
  {
    var q := PassQueue(v.elements, lang, v.storage);
    var e := v.elements[i];
    var key := KeyOf(e, lang);
    CacheHit(v, lang, rs, i);
    QueueFacts(v, lang);
    forall p | p in q ensures p.cacheKey != key {
      ClearedAt(v.elements, lang, v.storage, p.node);
    }
    StorageFrame(v, lang, rs, key);
    CapturedOriginal(e, lang, Pass(v, lang, rs).0.elements[i]);
  }

  /** The queued case of ShownIsCached: the last write under item j's key is the translation item j shows. */
  lemma QueuedShownIsCached(v: View, lang: string, rs: seq<Response>, j: nat)
    requires lang != SourceLang && Pass(v, lang, rs).1.Completed?
    requires FullReplies(PassQueue(v.elements, lang, v.storage), rs)
    requires ConsistentReplies(PassQueue(v.elements, lang, v.storage), rs)
    requires j < |PassQueue(v.elements, lang, v.storage)|
    ensures var q, w := PassQueue(v.elements, lang, v.storage), Pass(v, lang, rs).0;
      q[j].node < |w.elements| &&
      q[j].cacheKey in w.storage && w.storage[q[j].cacheKey] == w.elements[q[j].node].text
  {
    var q := PassQueue(v.elements, lang, v.storage);
    QueuedElement(v, lang, rs, j);
    CompletedSentAll(v, lang, rs);
    TextsAlignWithChunks(q, j);
    var l := LastSameKey(q, j);
    TextsAlignWithChunks(q, l);
    QueueFacts(v, lang);
    assert q[j] in q && q[l] in q;
    CacheKey.KeyInjective(lang, q[l].text, lang, q[j].text);
    StorageWritten(v, lang, rs, l);
  }

  /**
   * The other half of idempotence: after such a pass (completed, every reply full, equal texts
   * translated alike, nothing empty), a second pass to the same language leaves every element
   * showing the text the first pass left.
   */
  lemma SecondPassSameText(v: View, lang: string, rs: seq<Response>, rs2: seq<Response>)
    requires lang != SourceLang && Pass(v, lang, rs).1.Completed? && NoEmptyTranslation(rs)
    requires FullReplies(PassQueue(v.elements, lang, v.storage), rs)
    requires ConsistentReplies(PassQueue(v.elements, lang, v.storage), rs)
    ensures var w := Pass(v, lang, rs).0;
      |Pass(w, lang, rs2).0.elements| == |w.elements| &&
      forall i :: 0 <= i < |w.elements| ==> Pass(w, lang, rs2).0.elements[i].text == w.elements[i].text
  {
    var w := Pass(v, lang, rs).0;
    forall i | 0 <= i < |w.elements| ensures Pass(w, lang, rs2).0.elements[i].text == w.elements[i].text {
      if Eligible(w.elements[i]) {
        WarmAfterCompletion(v, lang, rs, i);
        if Eligible(v.elements[i]) {
          ShownIsCached(v, lang, rs, i);
        } else {
          SkippedElement(v, lang, rs, i);
        }
        CacheHit(w, lang, rs2, i);
      } else {
        SkippedElement(w, lang, rs2, i);
      }
    }
  }
}
