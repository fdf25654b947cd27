/** `extract_json_data`, identical in both Gemini scripts: decode the text
    from the first `{` to the last `}`; a missing brace (`ValueError` from
    `index`/`rindex`) or a decoding failure gives `None`. */
module JsonExtract {
  import opened Wrappers
  import opened Text

  /** A JSON value held by an object member (RFC 8259): a string, an array
      with its elements, or any other value (number, literal or object),
      whose contents the scripts never look at. */
  datatype Value = JString(text: string) | JArray(items: seq<Value>) | JOther

  /** A decoded JSON document: an object with its members, or any other
      value, reduced to its Python truthiness. */
  datatype Json = Object(fields: map<string, Value>) | Other(truthy: bool)

  /** `json.loads`, with `None` for `JSONDecodeError`. The empty text is
      never a JSON document; `ExtractJsonData` handles it itself, so the
      decoder's value there is never used. */
  type Decoder = string -> Option<Json>

  /** `text[text.index('{'):text.rindex('}') + 1]`; the slice is empty when
      the last `}` comes before the first `{`. */
  function BraceSpan(text: string): (r: Option<string>)
    ensures r.None? <==> '{' !in text || '}' !in text
  {
    match (IndexOf(text, '{'), LastIndexOf(text, '}'))
    case (Some(start), Some(last)) => Some(if start <= last then text[start..last + 1] else [])
    case _ => None
  }

  /** The span is exactly the part between a prefix without `{` and a suffix
      without `}`, when it starts with `{` and ends with `}`. */
  lemma BraceSpanOfParts(prefix: string, span: string, suffix: string)
    requires '{' !in prefix && '}' !in suffix
    requires |span| > 0 && span[0] == '{' && span[|span| - 1] == '}'
    ensures BraceSpan(prefix + span + suffix) == Some(span)
  {
    var text := prefix + span + suffix;
    assert text[..|prefix|] == prefix;
    IndexOfUnique(text, '{', |prefix|);
    assert text[|prefix| + |span|..] == suffix;
    LastIndexOfUnique(text, '}', |prefix| + |span| - 1);
    assert text[|prefix|..|prefix| + |span|] == span;
  }

  /** Conversely, a non-empty span cuts the text into such three parts: the
      text before the first `{`, the span, and the text after the last `}`. */
  lemma BraceSpanParts(text: string)
    requires BraceSpan(text).Some? && BraceSpan(text).value != []
    ensures IndexOf(text, '{').Some? && LastIndexOf(text, '}').Some?
    ensures var span, start, last := BraceSpan(text).value, IndexOf(text, '{').value, LastIndexOf(text, '}').value;
            start <= last < |text|
            && text == text[..start] + span + text[last + 1..]
            && '{' !in text[..start] && '}' !in text[last + 1..]
            && span[0] == '{' && span[|span| - 1] == '}'
  {
    var start, last := IndexOf(text, '{').value, LastIndexOf(text, '}').value;
    BraceSpanIsSlice(text, start, last);
    SliceParts(text, start, last);
  }

  /** A non-empty span is the slice between the two brace positions. */
  lemma BraceSpanIsSlice(text: string, start: nat, last: nat)
    requires IndexOf(text, '{') == Some(start) && LastIndexOf(text, '}') == Some(last)
    requires BraceSpan(text) != Some([])
    ensures start <= last && BraceSpan(text) == Some(text[start..last + 1])
  {
  }

  /** Cutting a text at `start` and after `last`. */
  lemma SliceParts(text: string, start: nat, last: nat)
    requires start <= last < |text|
    ensures text == text[..start] + text[start..last + 1] + text[last + 1..]
    ensures text[start..last + 1][0] == text[start]
    ensures text[start..last + 1][last - start] == text[last]
  {
  }

  /** The span is empty exactly when both braces occur but no `{` precedes a `}`. */
  lemma BraceSpanEmpty(text: string)
    ensures BraceSpan(text) == Some([]) <==>
            '{' in text && '}' in text
            && forall i, j :: 0 <= i < j < |text| ==> !(text[i] == '{' && text[j] == '}')
  {
    if '{' in text && '}' in text {
      var start, last := IndexOf(text, '{').value, LastIndexOf(text, '}').value;
      if start <= last {
        assert text[start..last + 1][0] == '{';
      } else {
        forall i, j | 0 <= i < j < |text|
          ensures !(text[i] == '{' && text[j] == '}')
        {
          assert i < start ==> text[..start][i] == text[i];
          assert last < j ==> text[last + 1..][j - last - 1] == text[j];
        }
      }
    }
  }

  /** `extract_json_data(text)`: `json.loads` raises on the empty slice. */
  function ExtractJsonData(text: string, decode: Decoder): Option<Json>
  {
    match BraceSpan(text)
    case None => None
    case Some(span) => if span == [] then None else decode(span)
  }

  /** A missing brace, or a last `}` before the first `{`, gives `None`;
      otherwise the result is the decoder's verdict on the non-empty span. */
  lemma ExtractJsonDataSpec(text: string, decode: Decoder)
    ensures ExtractJsonData(text, decode).None? <==>
            BraceSpan(text).None? || BraceSpan(text) == Some([]) || decode(BraceSpan(text).value).None?
    ensures BraceSpan(text) == Some([]) <==>
            '{' in text && '}' in text
            && forall i, j :: 0 <= i < j < |text| ==> !(text[i] == '{' && text[j] == '}')
    ensures ExtractJsonData(text, decode).Some? ==>
            BraceSpan(text).Some? && BraceSpan(text).value != []
            && ExtractJsonData(text, decode) == decode(BraceSpan(text).value)
  {
    BraceSpanEmpty(text);
  }

  /** A text made of a prefix without `{`, a brace-delimited span and a
      suffix without `}` decodes exactly that span. */
  lemma ExtractJsonDataOfParts(prefix: string, span: string, suffix: string, decode: Decoder)
    requires '{' !in prefix && '}' !in suffix
    requires |span| > 0 && span[0] == '{' && span[|span| - 1] == '}'
    ensures ExtractJsonData(prefix + span + suffix, decode) == decode(span)
  {
    BraceSpanOfParts(prefix, span, suffix);
  }

  /** Example: text whose only `}` precedes its only `{` decodes to nothing,
      whatever the decoder. */
  lemma ReversedBracesGiveNone(decode: Decoder)
    ensures ExtractJsonData("} {", decode) == None
  {
    assert IndexOf("} {", '{') == Some(2) by { IndexOfUnique("} {", '{', 2); }
    assert LastIndexOf("} {", '}') == Some(0) by { LastIndexOfUnique("} {", '}', 0); }
  }

  /** A reply that wraps its JSON in prose is decoded from the braces only. */
  lemma ExtractFromProse(decode: Decoder)
    ensures var span := "{\"answer\": \"3\", \"reason\": \"x\"}";
            ExtractJsonData("Answer: " + span + " Thanks!", decode) == decode(span)
  {
    ExtractJsonDataOfParts("Answer: ", "{\"answer\": \"3\", \"reason\": \"x\"}", " Thanks!", decode);
  }
}
