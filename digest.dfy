/** `send_to_telegram` (main.py) up to the message it posts, and the
    `__main__` wiring that feeds it the selection of `get_cnn_data(10)`.
    The HTTP request itself is not modelled: the model stops at the text
    that would be posted, or at the decision to post nothing. */
module Digest {
  import opened Text
  import opened Tokens
  import opened Selection

  datatype Option<T> = None | Some(value: T)

  /** The limit the program passes to `get_cnn_data`. */
  const DefaultLimit: int := 10

  /** The fixed first lines of every message: a bold title, the books emoji
      and a rule of 32 dashes. */
  const Header: string :=
    "<b>\U{4ECA}\U{65E5} CNN \U{6642}\U{4E8B}\U{55AE}\U{5B57}\U{63A8}\U{64AD}</b> \U{1F4DA}\n"
    + "--------------------------------\n\n"

  /** The text between the number and the word of a block. */
  const OpenWord: string := ". <b>"
  /** The text between the word and the translation: end of bold, new line,
      a blue diamond and the label for the Chinese translation. */
  const WordToTranslation: string := "</b>\n   \U{1F539} \U{4E2D}\U{6587}\U{FF1A}"
  /** The text between the translation and the headline: new line, a memo and
      the label for the original sentence, start of italics. */
  const TranslationToContext: string := "\n   \U{1F4DD} \U{539F}\U{53E5}\U{FF1A}<i>"
  /** The end of a block: end of italics and a blank line. */
  const CloseBlock: string := "</i>\n\n"

  /** The block for one item, numbered `n`: bold word, translation, italic headline. */
  function Block(n: nat, e: Entry): string {
    Decimal(n) + OpenWord + e.word + WordToTranslation + e.translation
    + TranslationToContext + e.context + CloseBlock
  }

  /** The blocks of `items`, numbered consecutively from `first`. */
  function Blocks(items: seq<Entry>, first: nat): string
    decreases |items|
  {
    if items == [] then "" else Block(first, items[0]) + Blocks(items[1..], first + 1)
  }

  /** The message of `send_to_telegram`: nothing for no items, otherwise the
      header and one block per item, numbered from 1. */
  method ComposeMessage(items: seq<Entry>) returns (message: Option<string>)
    ensures message == None <==> items == []
    ensures items != [] ==> message == Some(Header + Blocks(items, 1))
  {
    if items == [] {
      return None;
    }
    var text := Header;
    for k := 0 to |items|
      invariant text == Header + Blocks(items[..k], 1)
    {
      BlocksSnoc(items[..k], items[k], 1);
      assert items[..k + 1] == items[..k] + [items[k]];
      ConcatAssoc(Header, Blocks(items[..k], 1), Block(k + 1, items[k]));
      text := text + Block(k + 1, items[k]);
    }
    assert items[..|items|] == items;
    return Some(text);
  }

  /** One more item adds its block, numbered after the others, at the end. */
  lemma {:induction false} BlocksSnoc(items: seq<Entry>, e: Entry, first: nat)
    ensures Blocks(items + [e], first) == Blocks(items, first) + Block(first + |items|, e)
    decreases |items|
  {
    if items == [] {
      assert [e][1..] == [];
    } else {
      assert (items + [e])[1..] == items[1..] + [e];
      BlocksSnoc(items[1..], e, first + 1);
      ConcatAssoc(Block(first, items[0]), Blocks(items[1..], first + 1), Block(first + |items|, e));
    }
  }

  lemma {:induction false} BlocksAppend(xs: seq<Entry>, ys: seq<Entry>, first: nat)
    ensures Blocks(xs + ys, first) == Blocks(xs, first) + Blocks(ys, first + |xs|)
    decreases |xs|
  {
    if xs == [] {
      assert xs + ys == ys;
    } else {
      assert (xs + ys)[1..] == xs[1..] + ys;
      BlocksAppend(xs[1..], ys, first + 1);
      ConcatAssoc(Block(first, xs[0]), Blocks(xs[1..], first + 1), Blocks(ys, first + |xs|));
    }
  }

  /** The item at position `i` (counting from 0) gets the block numbered
      `i + 1`, after the blocks of the items before it and before the blocks of
      the items after it. */
  lemma BlocksLayout(items: seq<Entry>, i: int)
    requires 0 <= i < |items|
    ensures Blocks(items, 1) == Blocks(items[..i], 1) + Block(i + 1, items[i]) + Blocks(items[i + 1..], i + 2)
  {
    SplitAround(items, i);
    BlocksAppend(items[..i + 1], items[i + 1..], 1);
    BlocksSnoc(items[..i], items[i], 1);
  }

  /** A block starts with its number, and reading its leading digits gives
      that number back. */
  lemma BlockNumber(n: nat, e: Entry)
    ensures LeadingDigits(Block(n, e)) == Decimal(n)
    ensures ParseDecimal(LeadingDigits(Block(n, e))) == n
  {
    var rest := OpenWord + e.word + WordToTranslation + e.translation
      + TranslationToContext + e.context + CloseBlock;
    assert Block(n, e) == Decimal(n) + rest;
    assert rest[0] == '.';
    LeadingDigitsOfDecimal(n, rest);
  }

  /** A block holds the item's word, its translation and its headline. */
  lemma BlockFields(n: nat, e: Entry)
    ensures Contains(Block(n, e), e.word)
    ensures Contains(Block(n, e), e.translation)
    ensures Contains(Block(n, e), e.context)
  {
    BlockHoldsWord(n, e);
    BlockHoldsTranslation(n, e);
    BlockHoldsContext(n, e);
  }

  lemma BlockHoldsWord(n: nat, e: Entry)
    ensures OccursAt(Block(n, e), e.word, |Decimal(n) + OpenWord|)
  {
    var r := WordToTranslation + e.translation + TranslationToContext + e.context + CloseBlock;
    assert Block(n, e) == (Decimal(n) + OpenWord) + e.word + r;
    OccursInMiddle(Decimal(n) + OpenWord, e.word, r);
  }

  lemma BlockHoldsTranslation(n: nat, e: Entry)
    ensures OccursAt(Block(n, e), e.translation, |Decimal(n) + OpenWord + e.word + WordToTranslation|)
  {
    var l := Decimal(n) + OpenWord + e.word + WordToTranslation;
    var r := TranslationToContext + e.context + CloseBlock;
    assert Block(n, e) == l + e.translation + r;
    OccursInMiddle(l, e.translation, r);
  }

  lemma BlockHoldsContext(n: nat, e: Entry)
    ensures OccursAt(Block(n, e), e.context, |Block(n, e)| - |CloseBlock| - |e.context|)
  {
    var l := Decimal(n) + OpenWord + e.word + WordToTranslation + e.translation + TranslationToContext;
    assert Block(n, e) == l + e.context + CloseBlock;
    OccursInMiddle(l, e.context, CloseBlock);
  }

  /** The `__main__` block: select with the default limit, then build the message. */
  method Run(headlines: seq<string>, translate: string -> string) returns (message: Option<string>)
    ensures message == None <==> forall h, w :: h in headlines ==> !IsToken(Lower(h), w)
    ensures message != None ==>
      message.value == Header + Blocks(EnrichAll(Selected(headlines, DefaultLimit), translate), 1)
  {
    var data, _ := SelectWords(headlines, DefaultLimit, translate);
    SelectedEmpty(headlines, DefaultLimit);
    message := ComposeMessage(data);
  }
}
