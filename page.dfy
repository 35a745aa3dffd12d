/**
 * translatePage of translator.js as the imperative code it is: the page's elements are an
 * array updated in place and localStorage is a map field that the pass reassigns. Each
 * method is proved against the functions of module Translator.
 */
module TranslatorPage {
  import opened Optional
  import opened JsText
  import CacheKey
  import opened Chunking
  import opened Translator

  class Page {
    /** The elements the pass looks at, in document order. */
    const elements: array<Element>
    /** localStorage. */
    var storage: map<string, string>

    constructor(es: seq<Element>, cache: map<string, string>)
      ensures elements[..] == es && storage == cache
    {
      elements := new Element[|es|](i requires 0 <= i < |es| => es[i]);
      storage := cache;
    }

    /** The current page and cache. */
    function Snapshot(): View
      reads this, elements
    {
      View(elements[..], storage)
    }

    /** Removes every data-translated mark. */
    method ClearTranslatedMarks()
      modifies elements
      ensures elements[..] == Cleared(old(elements[..]))
    {
      ghost var es := elements[..];
      for i := 0 to elements.Length
        invariant elements[..i] == Cleared(es)[..i]
        invariant elements[i..] == es[i..]
      {
        elements[i] := elements[i].(translated := false);
      }
    }

    /**
     * The forEach callback for element i: skips an excluded or trivial text, captures the
     * original text, shows a cached translation or returns the entry to queue.
     */
    method ScanElement(i: nat, lang: string) returns (entry: seq<Pending>)
      requires i < elements.Length
      modifies elements
      ensures elements[..] == old(elements[..])[i := ScanOne(old(elements[i]), lang, storage)]
      ensures entry == ScanEntry(old(elements[..]), lang, storage, i)
    {
      entry := [];
      var el := elements[i];
      ghost var e0 := el;
      if el.selected && !Excluded(el) {
        var currentText := Trim(el.text);
        if !SkipText(currentText) {
          assert Eligible(e0);
          var originalText := if HasOriginal(el) then el.original.value else currentText;
          assert originalText == OriginalText(e0);
          if !HasOriginal(el) {
            el := el.(original := Some(originalText));
          }
          var cacheKey := CacheKey.Key(lang, originalText);
          if Cached(storage, cacheKey) {
            el := el.(text := storage[cacheKey], translated := true);
          } else {
            entry := [Pending(originalText, i, cacheKey)];
          }
          assert el == ScanOne(e0, lang, storage);
          elements[i] := el;
        } else {
          assert ScanOne(e0, lang, storage) == e0;
        }
      } else {
        assert ScanOne(e0, lang, storage) == e0;
      }
    }

    /** The scan over every candidate, in document order. */
    method ScanElements(lang: string) returns (queue: seq<Pending>)
      modifies elements
      ensures elements[..] == Scanned(old(elements[..]), lang, storage)
      ensures queue == Misses(old(elements[..]), lang, storage, elements.Length)
    {
      ghost var es := elements[..];
      queue := [];
      for i := 0 to elements.Length
        invariant elements[..] == Scanned(es, lang, storage)[..i] + es[i..]
        invariant queue == Misses(es, lang, storage, i)
      {
        ghost var before := elements[..];
        assert before[i] == es[i];
        var entry := ScanElement(i, lang);
        ScannedStep(es, lang, storage, i, before, elements[..]);
        MissesStep(es, lang, storage, i);
        queue := queue + entry;
      }
    }

    /**
     * The forEach callback for item idx of the translated chunk `index`, pending item m of the
     * pass: the element shows translated[idx] and the cache stores it under the item's key.
     */
    method ApplyItem(ghost v: View, queue: seq<Pending>, ghost responses: seq<Response>, ghost index: nat, ghost m: nat,
                     item: Pending, response: Response, idx: nat)
      requires NodesWithin(queue, elements.Length) && |v.elements| == elements.Length
      requires idx < ChunkSize && m == index * ChunkSize + idx && m < |queue| && Answered(responses, m + 1)
      requires item == queue[m] && response == Outcome(responses, index)
      requires Snapshot() == ApplyFirst(v, queue, responses, m)
      modifies this, elements
      ensures Snapshot() == ApplyFirst(v, queue, responses, m + 1)
    {
      ApplyFirstStep(v, queue, responses, index, idx);
      var translatedText := Shown(response, idx);
      elements[item.node] := elements[item.node].(text := translatedText, translated := true);
      storage := storage[item.cacheKey := Stored(response, idx)];
    }

    /** The callback for chunk `index` once its request succeeded: writes each returned translation back, in order. */
    method ApplyChunk(ghost v: View, queue: seq<Pending>, ghost responses: seq<Response>, index: nat, response: Response)
      requires NodesWithin(queue, elements.Length) && |v.elements| == elements.Length
      requires index * ChunkSize < |queue|
      requires forall c :: 0 <= c <= index ==> Outcome(responses, c).Translated?
      requires response == Outcome(responses, index)
      requires Snapshot() == ApplyFirst(v, queue, responses, index * ChunkSize)
      modifies this, elements
      ensures Snapshot() == ApplyFirst(v, queue, responses, Min((index + 1) * ChunkSize, |queue|))
    {
      var start := index * ChunkSize;
      var targetNodes := Slice(queue, start, (index + 1) * ChunkSize);
      SliceFacts(queue, start, (index + 1) * ChunkSize);
      NextChunkStart(index);
      ghost var end := Min((index + 1) * ChunkSize, |queue|);
      assert start + |targetNodes| == end;
      AnsweredBefore(responses, index + 1, end);
      ghost var done := start;
      for idx := 0 to |targetNodes|
        invariant done == start + idx
        invariant Snapshot() == ApplyFirst(v, queue, responses, done)
      {
        ApplyItem(v, queue, responses, index, done, targetNodes[idx], response, idx);
        done := done + 1;
      }
      assert done == end;
    }

    /**
     * processChunksSequentially(chunkedTexts, 1, callback): one request per chunk, one after the
     * other; a failed request stops the loop, and the error is caught by translatePage.
     */
    method SendChunks(ghost v: View, queue: seq<Pending>, chunkedTexts: seq<seq<string>>, responses: seq<Response>)
      returns (result: PassResult)
      requires chunkedTexts == Chunks(TextsOf(queue), ChunkSize)
      requires NodesWithin(queue, elements.Length) && |v.elements| == elements.Length
      requires Snapshot() == v
      modifies this, elements
      ensures var k := FirstFailure(responses, |chunkedTexts|);
        && Snapshot() == ApplyFirst(v, queue, responses, Written(queue, responses))
        && result == (if k == |chunkedTexts| then Completed(chunkedTexts)
                      else Aborted(chunkedTexts[..k + 1], AlertOf(Outcome(responses, k))))
    {
      ChunkCount(TextsOf(queue), ChunkSize);
      var sent: seq<seq<string>> := [];
      var index := 0;
      while index < |chunkedTexts|
        invariant index <= |chunkedTexts|
        invariant sent == chunkedTexts[..index]
        invariant forall c :: 0 <= c < index ==> Outcome(responses, c).Translated?
        invariant Answered(responses, Min(index * ChunkSize, |queue|))
        invariant Snapshot() == ApplyFirst(v, queue, responses, Min(index * ChunkSize, |queue|))
      {
        var chunkOfTexts := Slice(chunkedTexts, index, index + 1);
        var chunk := chunkOfTexts[0];
        SliceFacts(chunkedTexts, index, index + 1);
        PrefixExtend(chunkedTexts, index);
        sent := sent + [chunk];
        var response := Outcome(responses, index);
        if !response.Translated? {
          FirstFailureIs(responses, |chunkedTexts|, index);
          assert sent == chunkedTexts[..index + 1];
          return Aborted(sent, AlertOf(response));
        }
        ChunkAt(TextsOf(queue), ChunkSize, index);
        ApplyChunk(v, queue, responses, index, response);
        index := index + 1;
      }
      FirstFailureIs(responses, |chunkedTexts|, index);
      assert sent == chunkedTexts;
      return Completed(sent);
    }

    /** translatePage(targetLang), with the outcome of each request it makes given in order. */
    method TranslatePage(targetLang: string, responses: seq<Response>) returns (result: PassResult)
      modifies this, elements
      ensures (Snapshot(), result) == Pass(old(Snapshot()), targetLang, responses)
    {
      if targetLang == SourceLang {
        return ReloadRequested;
      }
      ghost var v := Snapshot();
      ClearTranslatedMarks();
      var queue := ScanElements(targetLang);
      if queue == [] {
        return NothingToSend;
      }
      var chunkedTexts := SplitIntoChunks(TextsOf(queue), ChunkSize);
      result := SendChunks(Snapshot(), queue, chunkedTexts, responses);
    }
  }
}
