/** The per-conversation variable store as a typed record, and the entity
    tagger's output that several macros consume. */
module Session {
  import opened Wrappers
  import opened Dataset

  /** The dialogue states a macro forces through `__state__`: `nomovie` and `dontknow`. */
  datatype StateId = NoMovie | DontKnow

  /** One tagged span: `thing.text` and `thing.label_` of a spaCy entity. */
  datatype Entity = Entity(text: string, kind: string)

  /** The session variables the macros read and write. A variable that was never
      set is None; `once` records whether the `once` key is present; `forced` is
      `__state__`, the state a macro forces the conversation into. */
  datatype Vars = Vars(
    name: Option<string>,
    userDescription: Option<string>,
    results: Option<seq<Row>>,
    pickid: Option<string>,
    genres: Option<map<string, seq<string>>>,
    keywords: Option<map<string, seq<string>>>,
    characters: Option<seq<CastPair>>,
    culture: Option<string>,
    once: bool,
    forced: Option<StateId>)

  /** The store at the start of a conversation. */
  const Initial: Vars := Vars(None, None, None, None, None, None, None, None, false, None)

  /** What a macro hands back to the dialogue flow: text to interpolate, or a gate outcome. */
  datatype Reply = Words(text: string) | Flag(ok: bool)

  /** `[thing.text for thing in doc.ents if thing.label_ == kind]`. */
  function Spans(ents: seq<Entity>, kind: string): (r: seq<string>)
    ensures |r| <= |ents|
    ensures forall t :: t in r <==> exists i :: 0 <= i < |ents| && ents[i].kind == kind && ents[i].text == t
    ensures |r| == 0 <==> forall i :: 0 <= i < |ents| ==> ents[i].kind != kind
  {
    if |ents| == 0 then []
    else (if ents[0].kind == kind then [ents[0].text] else []) + Spans(ents[1..], kind)
  }

  /** The first span of a label is the text of the earliest entity carrying it. */
  lemma {:induction false} FirstSpanIsEarliest(ents: seq<Entity>, kind: string)
    requires |Spans(ents, kind)| > 0
    ensures exists i :: 0 <= i < |ents| && ents[i].kind == kind && ents[i].text == Spans(ents, kind)[0]
                        && forall j :: 0 <= j < i ==> ents[j].kind != kind
  {
    if ents[0].kind != kind {
      assert Spans(ents, kind) == Spans(ents[1..], kind);
      FirstSpanIsEarliest(ents[1..], kind);
      var i :| 0 <= i < |ents[1..]| && ents[1..][i].kind == kind
               && ents[1..][i].text == Spans(ents[1..], kind)[0]
               && forall j :: 0 <= j < i ==> ents[1..][j].kind != kind;
      assert ents[i + 1] == ents[1..][i];
      forall j | 0 <= j < i + 1 ensures ents[j].kind != kind {
        if j > 0 {
          assert ents[j] == ents[1..][j - 1];
        }
      }
    }
  }
}
