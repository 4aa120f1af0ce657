/**
 * Count-based advice (recommendations.py). The source builds a local list by
 * successive appends, returns early when no beetle was seen, and otherwise
 * appends a tier block, an optional temperature note and a closing reminder.
 */
module Recommendations {
  import opened Wrappers

  const NoAction: string := "✅ No immediate action required. Continue weekly monitoring."
  const KeepRotation: string := "🌱 Maintain crop rotation and healthy soil to prevent outbreaks."
  const HandPick: string := "🧤 Hand-pick beetles and larvae early in the morning."
  const NaturalPredators: string := "🪲 Encourage natural predators like ladybirds and ground beetles."
  const BiologicalTreatment: string := "🌿 Consider biological treatments (Neem oil, Bacillus thuringiensis)."
  const RotateNextSeason: string := "🔁 Rotate crops next season to break the beetle life cycle."
  const HighInfestation: string := "⚠️ High infestation detected."
  const SelectiveInsecticide: string := "🧪 Use selective insecticides only if other methods fail."
  const AvoidResistance: string := "📆 Avoid repeated use of the same chemical to prevent resistance."
  const LowTemperature: string := "❄️ Low temperature: Beetle activity is reduced. Delay spraying."
  const HighTemperature: string := "☀️ High temperature: Apply treatments early morning or evening."
  const PhotoRecords: string := "📸 Keep photo records to track infestation trends over time."

  /** The tier block for a nonzero count: at most 3, 4 to 7, or 8 and more. */
  function TierAdvice(count: int): (r: seq<string>)
    requires count != 0
    ensures 2 <= |r| <= 3 && (|r| == 3 <==> count > 7)
    ensures HandPick in r <==> count <= 3
    ensures BiologicalTreatment in r <==> 3 < count <= 7
    ensures HighInfestation in r <==> 7 < count
    ensures NoAction !in r && PhotoRecords !in r
  {
    if count <= 3 then [HandPick, NaturalPredators]
    else if count <= 7 then [BiologicalTreatment, RotateNextSeason]
    else [HighInfestation, SelectiveInsecticide, AvoidResistance]
  }

  /** The temperature note: one message below 15 or above 25 degrees, none otherwise or when absent. */
  function TemperatureAdvice(temperature: Option<real>): (r: seq<string>)
    ensures |r| <= 1
    ensures r == [LowTemperature] <==> temperature.Some? && temperature.value < 15.0
    ensures r == [HighTemperature] <==> temperature.Some? && temperature.value > 25.0
    ensures r == [] <==> temperature.None? || 15.0 <= temperature.value <= 25.0
  {
    match temperature
    case None => []
    case Some(t) =>
      if t < 15.0 then [LowTemperature]
      else if t > 25.0 then [HighTemperature]
      else []
  }

  /** The whole advice list as a composition of its three parts. */
  function Advice(count: int, temperature: Option<real>): seq<string>
  {
    if count == 0 then [NoAction, KeepRotation]
    else TierAdvice(count) + TemperatureAdvice(temperature) + [PhotoRecords]
  }

  /** generate_recommendations: the list built append by append. */
  method GenerateRecommendations(count: int, temperature: Option<real>) returns (recs: seq<string>)
    ensures recs == Advice(count, temperature)
    // no beetles: exactly the two "no action" messages, temperature ignored, no reminder
    ensures count == 0 ==> recs == [NoAction, KeepRotation]
    // each tier puts its own messages first, in order
    ensures count != 0 && count <= 3 ==> recs[..2] == [HandPick, NaturalPredators]
    ensures 3 < count <= 7 ==> recs[..2] == [BiologicalTreatment, RotateNextSeason]
    ensures 7 < count ==> recs[..3] == [HighInfestation, SelectiveInsecticide, AvoidResistance]
    // the temperature note sits right after the tier block
    ensures count != 0 ==> recs[|TierAdvice(count)|..|recs| - 1] == TemperatureAdvice(temperature)
    // nonzero counts always end with the photo reminder, and the list has 3 to 5 entries
    ensures count != 0 ==> 3 <= |recs| <= 5 && recs[|recs| - 1] == PhotoRecords
  {
    recs := [];
    if count == 0 {
      recs := recs + [NoAction];
      recs := recs + [KeepRotation];
      return;
    }
    if count <= 3 {
      recs := recs + [HandPick];
      recs := recs + [NaturalPredators];
    } else if count <= 7 {
      recs := recs + [BiologicalTreatment];
      recs := recs + [RotateNextSeason];
    } else {
      recs := recs + [HighInfestation];
      recs := recs + [SelectiveInsecticide];
      recs := recs + [AvoidResistance];
    }
    if temperature.Some? {
      if temperature.value < 15.0 {
        recs := recs + [LowTemperature];
      } else if temperature.value > 25.0 {
        recs := recs + [HighTemperature];
      }
    }
    recs := recs + [PhotoRecords];
  }

  /** A nonzero count mentions the low-temperature note exactly when it is colder than 15 degrees. */
  lemma LowTemperatureNoteIff(count: int, temperature: Option<real>)
    requires count != 0
    ensures LowTemperature in Advice(count, temperature) <==> temperature.Some? && temperature.value < 15.0
  {
    var tier := TierAdvice(count);
    assert LowTemperature !in tier;
    assert LowTemperature != PhotoRecords;
    assert LowTemperature != HighTemperature;
    assert Advice(count, temperature) == tier + TemperatureAdvice(temperature) + [PhotoRecords];
  }

  /** A nonzero count mentions the high-temperature note exactly when it is warmer than 25 degrees. */
  lemma HighTemperatureNoteIff(count: int, temperature: Option<real>)
    requires count != 0
    ensures HighTemperature in Advice(count, temperature) <==> temperature.Some? && temperature.value > 25.0
  {
    var tier := TierAdvice(count);
    assert HighTemperature !in tier;
    assert HighTemperature != PhotoRecords;
    assert HighTemperature != LowTemperature;
    assert Advice(count, temperature) == tier + TemperatureAdvice(temperature) + [PhotoRecords];
  }

  /** With no beetles the temperature cannot change the advice. */
  lemma ZeroCountIgnoresTemperature(t1: Option<real>, t2: Option<real>)
    ensures Advice(0, t1) == Advice(0, t2)
    ensures PhotoRecords !in Advice(0, t1)
  {
    assert PhotoRecords != NoAction && PhotoRecords != KeepRotation;
  }
}
