/** The time-of-day bands of the bike-share statistics script:
    `categorize_time_of_day`, which labels every trip by the hour it started. */
module DivvyStats {
  const Morning := "Morning"
  const Afternoon := "Afternoon"
  const Evening := "Evening"
  const Night := "Night"

  const Bands: seq<string> := [Morning, Afternoon, Evening, Night]

  /** `categorize_time_of_day(hour)`: 5 to 11 is morning, 12 to 16 afternoon,
      17 to 20 evening, and every other hour night. */
  function CategorizeTimeOfDay(hour: int): (band: string)
    ensures band in Bands
    ensures band == Morning <==> 5 <= hour < 12
    ensures band == Afternoon <==> 12 <= hour < 17
    ensures band == Evening <==> 17 <= hour < 21
    ensures band == Night <==> hour < 5 || 21 <= hour
  {
    if 5 <= hour < 12 then Morning
    else if 12 <= hour < 17 then Afternoon
    else if 17 <= hour < 21 then Evening
    else Night
  }

  /** The four band names are different, so each hour lands in exactly one. */
  lemma BandsDistinct()
    ensures forall i, j :: 0 <= i < j < |Bands| ==> Bands[i] != Bands[j]
  {
    assert Morning[0] != Afternoon[0] && Morning[0] != Evening[0] && Morning[0] != Night[0];
    assert Afternoon[0] != Evening[0] && Afternoon[0] != Night[0] && Evening[0] != Night[0];
  }
}
