/**
  The medicine catalog as loaded from the dataset, and the text-building
  loop of `load_or_create_embeddings` (one cleaned
  "drug_name medical_condition side_effects" string per record, the input
  of the embedding model).
*/
module Catalog {
  import opened Text

  /** A medicine record: a JSON object, whose keys may be missing and whose
      values need not be strings. */
  type Record = map<string, Value>

  /** `med.get(key, default)`. */
  function Get(med: Record, key: string, default: string): Value {
    if key in med then med[key] else Str(default)
  }

  /** What an f-string interpolates for a value: the string itself, or `str(v)`. */
  function Shown(v: Value): string {
    match v
    case Str(s) => s
    case Other(shown) => shown
  }

  /** `f"{drug_name} {medical_condition} {side_effects}"`, missing fields as "". */
  function RecordText(med: Record): string {
    Shown(Get(med, "drug_name", "")) + " " + Shown(Get(med, "medical_condition", ""))
      + " " + Shown(Get(med, "side_effects", ""))
  }

  /** The texts the catalog embeddings are computed from. */
  method BuildCatalogTexts(cc: CharClasses, medicines: seq<Record>) returns (texts: seq<string>)
    requires cc.Valid()
    ensures |texts| == |medicines|
    ensures forall i :: 0 <= i < |medicines| ==> texts[i] == Clean(cc, Str(RecordText(medicines[i])))
    ensures forall i :: 0 <= i < |texts| ==> IsClean(cc, texts[i])
  {
    texts := [];
    for i := 0 to |medicines|
      invariant |texts| == i
      invariant forall k :: 0 <= k < i ==> texts[k] == Clean(cc, Str(RecordText(medicines[k])))
    {
      var med := medicines[i];
      var medText := Shown(Get(med, "drug_name", "")) + " " + Shown(Get(med, "medical_condition", ""))
        + " " + Shown(Get(med, "side_effects", ""));
      texts := texts + [Clean(cc, Str(medText))];
    }
    forall i | 0 <= i < |texts| ensures IsClean(cc, texts[i]) {
      CleanOutputIsClean(cc, Str(RecordText(medicines[i])));
    }
  }

  /** A record without any of the three fields gives the empty text: the
      two separating blanks are collapsed and stripped. */
  lemma {:induction false} EmptyRecordGivesEmptyText(cc: CharClasses, med: Record)
    requires cc.Valid()
    requires "drug_name" !in med && "medical_condition" !in med && "side_effects" !in med
    ensures Clean(cc, Str(RecordText(med))) == ""
  {
    assert RecordText(med) == "  ";
    assert ReplaceSpecials(cc, "  ") == "  ";
    assert TrimStart(cc, " ") == TrimStart(cc, []);
    assert CollapseRuns(cc, "  ") == " ";
  }
}
