/** The SDG12 taxonomy table (sdg12_taxonomy.py): each signal label with its
    trigger phrases, in the table's declared (insertion) order. */
module Taxonomy {
  import opened Text

  /** A taxonomy entry: a label and its list of trigger phrases. */
  type Entry = (string, seq<string>)

  /** `SDG12_KEYWORDS`, as an ordered sequence of entries. */
  const Sdg12Keywords: seq<Entry> := [
    ("packaging_waste",
      ["packaging", "plastic", "excess packaging", "too much packaging", "bubble wrap", "polystyrene"]),
    ("durability",
      ["broke", "broken", "stopped working", "fell apart", "durable", "lasted", "sturdy"]),
    ("repairability",
      ["repair", "fix", "spare parts", "replacement parts", "service center", "warranty"]),
    ("recyclability",
      ["recyclable", "recycle", "biodegradable", "compostable"]),
    ("energy_efficiency",
      ["energy efficient", "power consumption", "electricity bill", "energy rating"]),
    ("returns_overconsumption",
      ["return", "refund", "exchanged", "overbuy", "unused", "waste"]),
    ("materials_sourcing",
      ["recycled", "sustainable", "organic", "responsibly sourced", "materials"])
  ]

  /** The labels of a table, in order. */
  function Labels(entries: seq<Entry>): (ls: seq<string>)
    ensures |ls| == |entries|
    ensures forall j :: 0 <= j < |entries| ==> ls[j] == entries[j].0
  {
    if |entries| == 0 then [] else Labels(entries[..|entries| - 1]) + [entries[|entries| - 1].0]
  }

  predicate Distinct<T(==)>(s: seq<T>) {
    forall i, j :: 0 <= i < j < |s| ==> s[i] != s[j]
  }

  /** What the pipeline relies on of a table: distinct labels, and for every
      label a non-empty list of distinct, non-empty, lower-case phrases. */
  predicate WellFormed(entries: seq<Entry>) {
    Distinct(Labels(entries)) && forall j :: 0 <= j < |entries| ==> EntryWellFormed(entries[j])
  }

  predicate EntryWellFormed(e: Entry) {
    && |e.1| > 0
    && Distinct(e.1)
    && forall k :: 0 <= k < |e.1| ==> |e.1[k]| > 0 && IsLowerCase(e.1[k])
  }

  /** The table has exactly seven labels, in this declared order. */
  lemma TaxonomyLabels()
    ensures Labels(Sdg12Keywords) == [
      "packaging_waste", "durability", "repairability", "recyclability",
      "energy_efficiency", "returns_overconsumption", "materials_sourcing"]
  {
  }

  lemma PackagingWasteWellFormed()
    ensures EntryWellFormed(Sdg12Keywords[0])
  {
    PackagingWasteDistinct();
    PackagingWasteLowerCase();
  }

  lemma PackagingWasteDistinct()
    ensures Distinct(Sdg12Keywords[0].1)
  {
  }

  lemma PackagingWasteLowerCase()
    ensures forall k :: 0 <= k < |Sdg12Keywords[0].1| ==>
      |Sdg12Keywords[0].1[k]| > 0 && IsLowerCase(Sdg12Keywords[0].1[k])
  {
  }

  lemma DurabilityWellFormed()
    ensures EntryWellFormed(Sdg12Keywords[1])
  {
    DurabilityDistinct();
    DurabilityLowerCase();
  }

  lemma DurabilityDistinct()
    ensures Distinct(Sdg12Keywords[1].1)
  {
  }

  lemma DurabilityLowerCase()
    ensures forall k :: 0 <= k < |Sdg12Keywords[1].1| ==>
      |Sdg12Keywords[1].1[k]| > 0 && IsLowerCase(Sdg12Keywords[1].1[k])
  {
  }

  lemma RepairabilityWellFormed()
    ensures EntryWellFormed(Sdg12Keywords[2])
  {
    RepairabilityDistinct();
    RepairabilityLowerCase();
  }

  lemma RepairabilityDistinct()
    ensures Distinct(Sdg12Keywords[2].1)
  {
  }

  lemma RepairabilityLowerCase()
    ensures forall k :: 0 <= k < |Sdg12Keywords[2].1| ==>
      |Sdg12Keywords[2].1[k]| > 0 && IsLowerCase(Sdg12Keywords[2].1[k])
  {
  }

  lemma RecyclabilityWellFormed()
    ensures EntryWellFormed(Sdg12Keywords[3])
  {
    RecyclabilityDistinct();
    RecyclabilityLowerCase();
  }

  lemma RecyclabilityDistinct()
    ensures Distinct(Sdg12Keywords[3].1)
  {
  }

  lemma RecyclabilityLowerCase()
    ensures forall k :: 0 <= k < |Sdg12Keywords[3].1| ==>
      |Sdg12Keywords[3].1[k]| > 0 && IsLowerCase(Sdg12Keywords[3].1[k])
  {
  }

  lemma EnergyEfficiencyWellFormed()
    ensures EntryWellFormed(Sdg12Keywords[4])
  {
    EnergyEfficiencyDistinct();
    EnergyEfficiencyLowerCase();
  }

  lemma EnergyEfficiencyDistinct()
    ensures Distinct(Sdg12Keywords[4].1)
  {
  }

  lemma EnergyEfficiencyLowerCase()
    ensures forall k :: 0 <= k < |Sdg12Keywords[4].1| ==>
      |Sdg12Keywords[4].1[k]| > 0 && IsLowerCase(Sdg12Keywords[4].1[k])
  {
  }

  lemma ReturnsOverconsumptionWellFormed()
    ensures EntryWellFormed(Sdg12Keywords[5])
  {
    ReturnsOverconsumptionDistinct();
    ReturnsOverconsumptionLowerCase();
  }

  lemma ReturnsOverconsumptionDistinct()
    ensures Distinct(Sdg12Keywords[5].1)
  {
  }

  lemma ReturnsOverconsumptionLowerCase()
    ensures forall k :: 0 <= k < |Sdg12Keywords[5].1| ==>
      |Sdg12Keywords[5].1[k]| > 0 && IsLowerCase(Sdg12Keywords[5].1[k])
  {
  }

  lemma MaterialsSourcingWellFormed()
    ensures EntryWellFormed(Sdg12Keywords[6])
  {
    MaterialsSourcingDistinct();
    MaterialsSourcingLowerCase();
  }

  lemma MaterialsSourcingDistinct()
    ensures Distinct(Sdg12Keywords[6].1)
  {
  }

  lemma MaterialsSourcingLowerCase()
    ensures forall k :: 0 <= k < |Sdg12Keywords[6].1| ==>
      |Sdg12Keywords[6].1[k]| > 0 && IsLowerCase(Sdg12Keywords[6].1[k])
  {
  }

  /** The table is well formed: no label twice, no empty phrase list, no
      empty or repeated phrase, and every phrase already lower case (so
      `kw.lower() == kw`). */
  lemma TaxonomyWellFormed()
    ensures WellFormed(Sdg12Keywords)
  {
    LabelsDistinct();
    forall j | 0 <= j < |Sdg12Keywords|
      ensures EntryWellFormed(Sdg12Keywords[j])
    {
      EntryAtWellFormed(j);
    }
  }

  /** No label appears twice. */
  lemma LabelsDistinct()
    ensures Distinct(Labels(Sdg12Keywords))
  {
    TaxonomyLabels();
  }

  /** Each entry of the table is well formed. */
  lemma EntryAtWellFormed(j: int)
    requires 0 <= j < |Sdg12Keywords|
    ensures EntryWellFormed(Sdg12Keywords[j])
  {
    if j == 0 { PackagingWasteWellFormed(); }
    else if j == 1 { DurabilityWellFormed(); }
    else if j == 2 { RepairabilityWellFormed(); }
    else if j == 3 { RecyclabilityWellFormed(); }
    else if j == 4 { EnergyEfficiencyWellFormed(); }
    else if j == 5 { ReturnsOverconsumptionWellFormed(); }
    else { MaterialsSourcingWellFormed(); }
  }

  /** Every phrase is its own lower case, so `kw.lower() in text_lc` is
      `kw in text_lc`. */
  lemma PhrasesLowerCase(j: int)
    requires 0 <= j < |Sdg12Keywords|
    ensures forall k :: 0 <= k < |Sdg12Keywords[j].1| ==> Lower(Sdg12Keywords[j].1[k]) == Sdg12Keywords[j].1[k]
  {
    TaxonomyWellFormed();
    assert EntryWellFormed(Sdg12Keywords[j]);
    forall k | 0 <= k < |Sdg12Keywords[j].1|
      ensures Lower(Sdg12Keywords[j].1[k]) == Sdg12Keywords[j].1[k]
    {
      LowerIsLowerCase(Sdg12Keywords[j].1[k]);
    }
  }
}
