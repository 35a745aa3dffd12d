/**
 * xt9_add_description_to_navigation_items of functions.php: a submenu item's description,
 * escaped, goes into a span right before the first </a> of the item. The filter does it with
 * preg_replace, whose replacement string gives '\' and '$' a meaning; AddDescriptionAsWritten
 * models that, AddDescription the literal insertion the filter is evidently meant to make.
 */
module NavDescription {
  import opened Optional
  import opened HtmlFilters

  /** The parts of the block the filter reads: blockName and attrs.description (None when unset or null). */
  datatype Block = Block(blockName: Option<string>, description: Option<string>)

  const SubmenuBlock: string := "core/navigation-submenu"
  /** The class of the description span. */
  const DescriptionClass: string := "wp-block-navigation-item__description"
  /** <span class="wp-block-navigation-item__description"> */
  const SpanOpen: string := "<span class=" + ['"'] + DescriptionClass + ['"'] + ">"
  const SpanClose: string := "</span>"

  /** PHP's empty() on a string: "" and "0" are empty. */
  predicate PhpEmpty(s: string) {
    s == "" || s == "0"
  }

  /** The filter does something: a submenu block with a non-empty description. */
  predicate Applies(block: Block) {
    block.blockName == Some(SubmenuBlock) && block.description.Some? && !PhpEmpty(block.description.value)
  }

  function DescriptionSpan(escaped: string): string {
    SpanOpen + escaped + SpanClose
  }

  /** The replacement string of the filter: the span and the </a>. */
  function Template(escaped: string): string {
    DescriptionSpan(escaped) + "</a>"
  }

  /** The first index at or after i where </a> occurs. */
  function FirstAnchorEnd(s: string, i: nat): (r: Option<nat>)
    decreases |s| + 1 - i
    ensures r.Some? ==> i <= r.value && AnchorEndAt(s, r.value)
  {
    if i + 4 > |s| then None
    else if AnchorEndAt(s, i) then Some(i)
    else FirstAnchorEnd(s, i + 1)
  }

  /** FirstAnchorEnd finds the first occurrence, and None means there is none. */
  lemma {:induction false} FirstAnchorEndIsFirst(s: string, i: nat)
    decreases |s| + 1 - i
    ensures FirstAnchorEnd(s, i).Some? ==> forall k :: i <= k < FirstAnchorEnd(s, i).value ==> !AnchorEndAt(s, k)
    ensures FirstAnchorEnd(s, i).None? ==> forall k :: i <= k ==> !AnchorEndAt(s, k)
  {
    if i + 4 <= |s| && !AnchorEndAt(s, i) {
      FirstAnchorEndIsFirst(s, i + 1);
    }
  }

  /**
   * A back-reference at t[i] (a '\' or '$') as preg_replace reads its replacement string:
   * \n, $n or ${n} with one or two digits; the group number and the index after it.
   * A NUL or the end of the string right after the sign means none.
   */
  function Backref(t: string, i: nat): (r: Option<(nat, nat)>)
    requires i < |t|
    ensures r.Some? ==> i < r.value.1 <= |t|
    ensures r.Some? ==> r.value.0 < 100 && r.value.1 <= i + 5
  {
    if i + 1 >= |t| || t[i + 1] == '\0' then None
    else
      var brace := t[i] == '$' && t[i + 1] == '{';
      var j := if brace then i + 2 else i + 1;
      if j < |t| && IsDigit(t[j]) then
        var d := t[j] as int - '0' as int;
        var (n, after) :=
          if j + 1 < |t| && IsDigit(t[j + 1]) then (d * 10 + (t[j + 1] as int - '0' as int), j + 2) else (d, j + 1);
        if !brace then Some((n, after))
        else if after < |t| && t[after] == '}' then Some((n, after + 1))
        else None
      else None
  }

  /**
   * preg_replace's expansion of its replacement string t from index i, for a pattern without
   * groups: a reference to group 0 becomes the matched text, one to any other group nothing; a
   * '\' or '$' right after a copied '\' takes its place; anything else is copied. last is the
   * last character copied ('\0' at the start and after such an escape), so acc is never empty
   * when last is '\'.
   */
  function ExpandFrom(t: string, i: nat, last: char, matched: string, acc: string): string
    requires i <= |t|
    decreases |t| - i
  {
    if i == |t| then acc
    else
      var c := t[i];
      if (c == '\\' || c == '$') && last == '\\' && acc != [] then
        ExpandFrom(t, i + 1, '\0', matched, acc[..|acc| - 1] + [c])
      else if (c == '\\' || c == '$') && Backref(t, i).Some? then
        var (n, next) := Backref(t, i).value;
        ExpandFrom(t, next, last, matched, acc + if n == 0 then matched else [])
      else ExpandFrom(t, i + 1, c, matched, acc + [c])
  }

  /** preg_replace's expansion of the whole replacement string t; one without '\' or '$' is copied as it is. */
  function Expand(t: string, matched: string): (r: string)
    ensures Plain(t) ==> r == t
  {
    if Plain(t) then
      ExpandPlain(t, 0, '\0', matched, []);
      assert [] + t[0..] == t;
      ExpandFrom(t, 0, '\0', matched, [])
    else ExpandFrom(t, 0, '\0', matched, [])
  }

  /**
   * The filter as written: preg_replace('/<\/a>/', $span . '</a>', $block_content, 1), where the
   * description inside $span is read as part of the replacement string.
   */
  function AddDescriptionAsWritten(content: string, block: Block, escAttr: string -> string): (r: string)
    ensures (!Applies(block) || forall k :: 0 <= k < |content| ==> !AnchorEndAt(content, k)) ==> r == content
  {
    if !Applies(block) then content
    else
      match FirstAnchorEnd(content, 0)
      case None => content
      case Some(k) => content[..k] + Expand(Template(escAttr(block.description.value)), content[k..k + 4]) + content[k + 4..]
  }

  /** The filter as intended: the escaped description, as it is, right before the first </a>. */
  function AddDescription(content: string, block: Block, escAttr: string -> string): (r: string)
    ensures (!Applies(block) || forall k :: 0 <= k < |content| ==> !AnchorEndAt(content, k)) ==> r == content
  {
    if !Applies(block) then content
    else
      match FirstAnchorEnd(content, 0)
      case None => content
      case Some(k) => content[..k] + DescriptionSpan(escAttr(block.description.value)) + content[k..]
  }

  /**
   * Neither the filter as written nor as intended changes anything unless the block is a submenu
   * with a description and the content has a </a>.
   */
  lemma AddDescriptionUnchanged(content: string, block: Block, escAttr: string -> string)
    requires !Applies(block) || forall k :: 0 <= k < |content| ==> !AnchorEndAt(content, k)
    ensures AddDescription(content, block, escAttr) == content
    ensures AddDescriptionAsWritten(content, block, escAttr) == content
  {
  }

  /** Inserting at k and taking the piece out again gives back the text. */
  lemma InsertTakeOut(content: string, k: nat, span: string)
    requires k <= |content|
    ensures var r := content[..k] + span + content[k..];
      |r| == |content| + |span| && r[k..k + |span|] == span && r[..k] + r[k + |span|..] == content
  {
    var r := content[..k] + span + content[k..];
    assert r[..k] == content[..k] && r[k + |span|..] == content[k..];
  }

  /**
   * Otherwise the span is inserted right before the first </a> and nowhere else: taking it out
   * again gives back the content.
   */
  lemma AddDescriptionInserts(content: string, block: Block, escAttr: string -> string, k: nat)
    requires Applies(block) && AnchorEndAt(content, k)
    requires forall j :: 0 <= j < k ==> !AnchorEndAt(content, j)
    ensures var span := DescriptionSpan(escAttr(block.description.value));
      var r := AddDescription(content, block, escAttr);
      && r == content[..k] + span + content[k..]
      && |r| == |content| + |span|
      && r[k..k + |span|] == span
      && r[..k] + r[k + |span|..] == content
  {
    FirstAnchorEndIsFirst(content, 0);
    InsertTakeOut(content, k, DescriptionSpan(escAttr(block.description.value)));
  }

  /** Neither '\' nor '$' occurs in s. */
  predicate Plain(s: string) {
    forall k :: 0 <= k < |s| ==> s[k] != '\\' && s[k] != '$'
  }

  lemma PlainAppend(a: string, b: string)
    requires Plain(a) && Plain(b)
    ensures Plain(a + b)
  {
    forall k | 0 <= k < |a + b| ensures (a + b)[k] != '\\' && (a + b)[k] != '$' {
      if k < |a| {
        assert (a + b)[k] == a[k];
      } else {
        assert (a + b)[k] == b[k - |a|];
      }
    }
  }

  /** The fixed text of the replacement string holds neither '\' nor '$'. */
  lemma FixedTextPlain()
    ensures Plain(SpanOpen) && Plain(SpanClose) && Plain("</a>")
  {
    assert Plain(DescriptionClass);
    assert Plain("<span class=") && Plain(['"']) && Plain(">");
    PlainAppend("<span class=", ['"']);
    PlainAppend("<span class=" + ['"'], DescriptionClass);
    PlainAppend("<span class=" + ['"'] + DescriptionClass, ['"']);
    PlainAppend("<span class=" + ['"'] + DescriptionClass + ['"'], ">");
  }

  /** A replacement string without '\' and '$' is copied as it is. */
  lemma {:induction false} ExpandPlain(t: string, i: nat, last: char, matched: string, acc: string)
    requires i <= |t| && forall k :: i <= k < |t| ==> t[k] != '\\' && t[k] != '$'
    decreases |t| - i
    ensures ExpandFrom(t, i, last, matched, acc) == acc + t[i..]
  {
    if i < |t| {
      ExpandPlain(t, i + 1, t[i], matched, acc + [t[i]]);
      assert acc + [t[i]] + t[i + 1..] == acc + t[i..];
    }
  }

  /** With an escaped description free of '\' and '$' the replacement string is copied as it is. */
  lemma TemplatePlain(escaped: string)
    requires Plain(escaped)
    ensures Expand(Template(escaped), "</a>") == Template(escaped)
  {
    FixedTextPlain();
    PlainAppend(SpanOpen, escaped);
    PlainAppend(SpanOpen + escaped, SpanClose);
    PlainAppend(DescriptionSpan(escaped), "</a>");
    ExpandPlain(Template(escaped), 0, '\0', "</a>", []);
  }

  /** When the escaped description holds neither '\' nor '$', the filter does what it intends. */
  lemma AsWrittenAgreesWhenPlain(content: string, block: Block, escAttr: string -> string)
    requires Applies(block) ==> Plain(escAttr(block.description.value))
    ensures AddDescriptionAsWritten(content, block, escAttr) == AddDescription(content, block, escAttr)
  {
    if Applies(block) && FirstAnchorEnd(content, 0).Some? {
      var k := FirstAnchorEnd(content, 0).value;
      var escaped := escAttr(block.description.value);
      AnchorEndText(content, k);
      TemplatePlain(escaped);
      assert content[k..] == content[k..k + 4] + content[k + 4..];
    }
  }

  /** Plain characters are copied one by one, up to index p. */
  lemma {:induction false} ExpandPlainPrefix(t: string, i: nat, p: nat, last: char, matched: string, acc: string)
    requires i < p <= |t| && forall k :: i <= k < p ==> t[k] != '\\' && t[k] != '$'
    decreases p - i
    ensures ExpandFrom(t, i, last, matched, acc) == ExpandFrom(t, p, t[p - 1], matched, acc + t[i..p])
  {
    if i + 1 < p {
      ExpandPlainPrefix(t, i + 1, p, t[i], matched, acc + [t[i]]);
      assert acc + [t[i]] + t[i + 1..p] == acc + t[i..p];
    } else {
      assert t[i..p] == [t[i]];
    }
  }

  /**
   * "$0" between plain text is a reference to the whole match: the expansion puts the matched
   * text in its place, unless a digit follows and makes it a two-digit group number.
   */
  lemma ExpandDollarZero(pre: string, post: string, matched: string)
    requires pre != [] && Plain(pre) && Plain(post) && (post == [] || !IsDigit(post[0]))
    ensures Expand(pre + "$0" + post, matched) == pre + matched + post
  {
    var t := pre + "$0" + post;
    var p := |pre|;
    assert t[..p] == pre && t[p] == '$' && t[p + 1] == '0' && t[p + 2..] == post;
    assert t[p - 1] == pre[p - 1];
    ExpandPlainPrefix(t, 0, p, '\0', matched, []);
    assert [] + t[0..p] == pre;
    assert Backref(t, p) == Some((0, p + 2));
    ExpandPlain(t, p + 2, t[p - 1], matched, pre + matched);
  }

  /** The replacement string for an escaped description "$0" expands to the span around the matched text. */
  lemma TemplateDollarZero(matched: string)
    ensures Expand(Template("$0"), matched) == SpanOpen + matched + SpanClose + "</a>"
  {
    FixedTextPlain();
    PlainAppend(SpanClose, "</a>");
    assert SpanOpen != [];
    assert Template("$0") == SpanOpen + "$0" + (SpanClose + "</a>");
    ExpandDollarZero(SpanOpen, SpanClose + "</a>", matched);
  }

  /**
   * A description whose escaped form is "$0" (esc_attr leaves '$' alone) is replaced by the
   * matched "</a>": the filter as written closes the link inside the span and loses the
   * description, where the intended insertion keeps it.
   */
  lemma DollarZeroDescription(content: string, block: Block, escAttr: string -> string, k: nat)
    requires Applies(block) && escAttr(block.description.value) == "$0"
    requires AnchorEndAt(content, k) && forall j :: 0 <= j < k ==> !AnchorEndAt(content, j)
    ensures AddDescriptionAsWritten(content, block, escAttr) == content[..k] + (SpanOpen + "</a>" + SpanClose + "</a>") + content[k + 4..]
    ensures AddDescription(content, block, escAttr) == content[..k] + (SpanOpen + "$0" + SpanClose) + content[k..]
    ensures AddDescriptionAsWritten(content, block, escAttr) != AddDescription(content, block, escAttr)
  {
    FirstAnchorEndIsFirst(content, 0);
    AnchorEndText(content, k);
    TemplateDollarZero("</a>");
  }
}
