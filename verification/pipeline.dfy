/** The translation pipeline around the chunker (temp.py).

    A translation model is an opaque total function from one chunk of text to
    its translation: tokenisation, generation and decoding happen inside it.
    The English-to-Vietnamese model may have failed to load at start-up; it is
    passed in as an `Option`, `None` standing for the failed load.
 */
module Pipeline {
  import opened Chunker

  datatype Option<T> = None | Some(value: T)

  /** The one error the pipeline raises itself. */
  datatype TranslateError = PivotUnavailable

  datatype Result<T> = Ok(value: T) | Err(error: TranslateError)

  // ---------------------------------------------------------------------------
  // " ".join and its inverse

  /** `" ".join(parts)`: the parts in order with one space between neighbours. */
  function Join(parts: seq<string>): string
  {
    if parts == [] then []
    else if |parts| == 1 then parts[0]
    else parts[0] + " " + Join(parts[1..])
  }

  /** `s.split(" ")`: the runs between single spaces (empty runs included). */
  function Fields(s: string): (r: seq<string>)
    ensures |r| >= 1
  {
    if s == [] then [[]]
    else if s[0] == ' ' then [[]] + Fields(s[1..])
    else
      var rest := Fields(s[1..]);
      [[s[0]] + rest[0]] + rest[1..]
  }

  /** Splitting at spaces and joining with spaces gives back any string. */
  lemma {:induction false} JoinFields(s: string)
    ensures Join(Fields(s)) == s
  {
    if s != [] {
      JoinFields(s[1..]);
      var rest := Fields(s[1..]);
      if s[0] == ' ' {
        assert ([[]] + rest)[1..] == rest;
      } else {
        var r := [[s[0]] + rest[0]] + rest[1..];
        assert r[1..] == rest[1..];
        if |rest| > 1 {
          assert Join(rest) == rest[0] + " " + Join(rest[1..]);
        }
      }
    }
  }

  /** Joining is undone by splitting when no part holds a space: the outputs
      are kept apart, in order, none lost or merged. */
  lemma {:induction false} FieldsJoin(parts: seq<string>)
    requires parts != []
    requires forall i, j :: 0 <= i < |parts| && 0 <= j < |parts[i]| ==> parts[i][j] != ' '
    ensures Fields(Join(parts)) == parts
    decreases |parts|, |parts[0]|
  {
    var p := parts[0];
    if p == [] {
      if |parts| > 1 {
        assert Join(parts) == [' '] + Join(parts[1..]);
        FieldsJoin(parts[1..]);
        assert parts == [[]] + parts[1..];
      }
    } else {
      // drop the first character of the first part
      var shorter := [p[1..]] + parts[1..];
      assert shorter[0] == p[1..] && shorter[1..] == parts[1..];
      assert forall i, j :: 0 <= i < |shorter| && 0 <= j < |shorter[i]| ==> shorter[i][j] != ' ' by {
        forall i, j | 0 <= i < |shorter| && 0 <= j < |shorter[i]| ensures shorter[i][j] != ' ' {
          if i == 0 { assert shorter[0][j] == p[j + 1]; } else { assert shorter[i] == parts[i]; }
        }
      }
      FieldsJoin(shorter);
      assert Join(parts) == [p[0]] + Join(shorter);
      assert Join(parts)[1..] == Join(shorter);
      assert [p[0]] + p[1..] == p;
      assert parts == [p] + parts[1..];
    }
  }

  /** Joining two non-empty lists is joining each and putting one space
      between the two results. */
  lemma {:induction false} JoinAppend(a: seq<string>, b: seq<string>)
    requires a != [] && b != []
    ensures Join(a + b) == Join(a) + " " + Join(b)
    decreases |a|
  {
    if |a| == 1 {
      assert (a + b)[0] == a[0] && (a + b)[1..] == b;
    } else {
      assert (a + b)[0] == a[0] && (a + b)[1..] == a[1..] + b;
      JoinAppend(a[1..], b);
    }
  }

  /** The join loses the boundaries between outputs: one output holding a
      space and two outputs without one give the same string. */
  lemma JoinMergesOutputs()
    ensures ["a b"] != ["a", "b"]
    ensures Join(["a b"]) == Join(["a", "b"])
  {
    assert ["a b"][0] != ["a", "b"][0];
    assert Join(["a", "b"]) == "a" + " " + Join(["b"]);
  }

  // ---------------------------------------------------------------------------
  // generate_translation

  /** The model's outputs for the chunks, one per chunk and in chunk order. */
  function Outputs(model: string -> string, texts: seq<string>): (r: seq<string>)
    ensures |r| == |texts|
    ensures forall i :: 0 <= i < |texts| ==> r[i] == model(texts[i])
  {
    if texts == [] then [] else [model(texts[0])] + Outputs(model, texts[1..])
  }

  /** `generate_translation`: translate every chunk on its own, in order, and
      join the outputs with single spaces; an empty chunk list gives the empty
      string. */
  method GenerateTranslation(model: string -> string, texts: seq<string>) returns (joined: string)
    ensures joined == Join(Outputs(model, texts))
    ensures texts == [] ==> joined == []
    ensures |texts| == 1 ==> joined == model(texts[0])
  {
    var outputs: seq<string> := [];
    for k := 0 to |texts|
      invariant outputs == Outputs(model, texts[..k])
    {
      outputs := outputs + [model(texts[k])];
    }
    assert texts[..|texts|] == texts;
    joined := Join(outputs);
  }

  // ---------------------------------------------------------------------------
  // translate_zh_to_en, translate_en_to_vi, translate_zh_to_vi

  /** Chunk `text` with the default bound and translate the chunks with `model`. */
  function Translate(model: string -> string, text: string): string
  {
    Join(Outputs(model, Chunks(text, DefaultMaxChars)))
  }

  /** `translate_zh_to_en`: whitespace-only input translates to the empty string. */
  function TranslateZhToEn(zhEn: string -> string, text: string): (r: string)
    ensures (forall i :: 0 <= i < |text| ==> IsSpace(text[i])) ==> r == []
  {
    ChunksEmptyIff(text, DefaultMaxChars);
    Translate(zhEn, text)
  }

  /** `translate_en_to_vi`: fails, before any chunking or model call, exactly
      when the English-to-Vietnamese model did not load. */
  function TranslateEnToVi(enVi: Option<string -> string>, text: string): (r: Result<string>)
    ensures r.Err? <==> enVi.None?
    ensures r.Err? ==> r.error == PivotUnavailable
  {
    if enVi.None? then Err(PivotUnavailable) else Ok(Translate(enVi.value, text))
  }

  /** `translate_zh_to_vi`: Chinese to English, then English to Vietnamese. */
  function TranslateZhToVi(zhEn: string -> string, enVi: Option<string -> string>, text: string): (r: Result<string>)
    ensures r.Err? <==> enVi.None?
  {
    var en := TranslateZhToEn(zhEn, text);
    TranslateEnToVi(enVi, en)
  }

  /** With the pivot model loaded, Chinese to Vietnamese is the composition of
      the two single-direction translations; without it, it fails whatever the
      input, and never returns a partial or empty translation. */
  lemma PivotComposition(zhEn: string -> string, enVi: Option<string -> string>, text: string)
    ensures enVi.Some? ==> TranslateZhToVi(zhEn, enVi, text) == Ok(Translate(enVi.value, Translate(zhEn, text)))
    ensures enVi.None? ==> TranslateZhToVi(zhEn, enVi, text) == Err(PivotUnavailable)
  {
  }

  /** A text whose stripped, squeezed form fits in one chunk is translated by a
      single model call on that form. */
  lemma ShortTextOneCall(model: string -> string, text: string)
    requires Squeeze(Strip(text), false) != [] && |Squeeze(Strip(text), false)| <= DefaultMaxChars
    ensures Translate(model, text) == model(Squeeze(Strip(text), false))
  {
    ChunksFit(text, DefaultMaxChars);
  }

  /** The first example: the two-sentence greeting goes to the model whole. */
  lemma TwoSentencesOneCall(model: string -> string)
    ensures Translate(model, "你好。今天天气怎么样？") == model("你好。今天天气怎么样？")
  {
    TwoSentencesExample();
  }
}
