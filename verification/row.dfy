/** The fixed 13-column output schema: the header row, and the data row built
    from a placemark's position and attribute table. */
module Row {
  import opened Coordinates
  import opened Table

  /** The column names of the header row, in output order. */
  const Header: seq<string> := [
    "Latitude", "Longitude", "Brightness", "Scan", "Track", "Acq_Date",
    "Acq_Time", "Satellite", "Confidence", "Version", "Bright_T31",
    "FRP", "DayNight"
  ]

  /** The feed's own labels for the eleven attribute columns, in column order
      (the columns after Latitude and Longitude); note the spaces. */
  const Labels: seq<string> := [
    "Brightness", "Scan", "Track", "Acq Date", "Acq Time", "Satellite",
    "Confidence", "Version", "Bright T31", "FRP", "DayNight"
  ]

  /** Number of columns of every output row. */
  const Width: nat := 13

  /** A column name as the header spells it: the feed label with each space
      written as an underscore. */
  function ColumnName(feedLabel: string): string {
    seq(|feedLabel|, k requires 0 <= k < |feedLabel| =>
      if feedLabel[k] == ' ' then '_' else feedLabel[k])
  }

  /** The header has one column for the latitude, one for the longitude and
      one per feed label, named after that label. */
  lemma HeaderNamesLabels()
    ensures |Header| == Width == 2 + |Labels|
    ensures Header[0] == "Latitude" && Header[1] == "Longitude"
    ensures forall i :: 0 <= i < |Labels| ==> Header[i + 2] == ColumnName(Labels[i])
  {
    forall i | 0 <= i < |Labels| ensures Header[i + 2] == ColumnName(Labels[i]) {
      ColumnNameAt(i);
    }
  }

  /** The header's name for attribute column `i`. */
  lemma ColumnNameAt(i: nat)
    requires i < |Labels|
    ensures Header[i + 2] == ColumnName(Labels[i])
  {
    var l, h := Labels[i], Header[i + 2];
    assert |h| == |l|;
    forall k | 0 <= k < |l| ensures h[k] == (if l[k] == ' ' then '_' else l[k]) {
    }
  }

  /** The data row of one placemark: latitude, then longitude, then for each
      feed label the value the table holds under it, or the empty string. */
  function Build(c: Coordinate, data: map<string, string>): (row: seq<string>)
    ensures |row| == Width
    ensures row[0] == c.latitude && row[1] == c.longitude
    ensures forall i :: 0 <= i < |Labels| ==> row[i + 2] == Get(data, Labels[i])
    ensures forall i :: 0 <= i < |Labels| && Labels[i] !in data ==> row[i + 2] == ""
  {
    [
      c.latitude,
      c.longitude,
      Get(data, "Brightness"),
      Get(data, "Scan"),
      Get(data, "Track"),
      Get(data, "Acq Date"),
      Get(data, "Acq Time"),
      Get(data, "Satellite"),
      Get(data, "Confidence"),
      Get(data, "Version"),
      Get(data, "Bright T31"),
      Get(data, "FRP"),
      Get(data, "DayNight")
    ]
  }
}
