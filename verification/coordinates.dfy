/** Coordinate handling of one placemark: the stripped `coordinates` text is
    split on commas; fewer than two parts means the placemark is skipped,
    otherwise part 0 is the longitude and part 1 the latitude, both kept as
    the original text, and any altitude part is ignored. */
module Coordinates {
  import opened Wrappers
  import opened Text

  /** A position as the feed writes it: `lon,lat[,alt]`; no number parsing. */
  datatype Coordinate = Coordinate(longitude: string, latitude: string)

  const Comma: char := ','

  /** `text` begins with the comma-free fields `lon` and `lat` separated by a
      comma, and after `lat` it either ends or goes on with another comma. */
  predicate LeadingFields(text: string, lon: string, lat: string) {
    var n := |lon| + 1 + |lat|;
    && Comma !in lon && Comma !in lat
    && n <= |text|
    && text[..n] == lon + [Comma] + lat
    && (n == |text| || text[n] == Comma)
  }

  /** The longitude/latitude pair read from already-stripped coordinate text,
      or None when the text splits into fewer than two comma-separated parts,
      which happens exactly when it holds no comma at all. */
  function Parse(text: string): (r: Option<Coordinate>)
    ensures r.None? <==> Comma !in text
    ensures r.Some? ==> LeadingFields(text, r.value.longitude, r.value.latitude)
  {
    var parts := Split(text, Comma);
    SplitSingle(text, Comma);
    if |parts| < 2 then None
    else
      FirstTwoParts(text);
      Some(Coordinate(parts[0], parts[1]))
  }

  /** When the split gives at least two parts, the first two are the leading
      fields of the text. */
  lemma FirstTwoParts(text: string)
    requires |Split(text, Comma)| >= 2
    ensures LeadingFields(text, Split(text, Comma)[0], Split(text, Comma)[1])
  {
    var parts := Split(text, Comma);
    var lon, lat := parts[0], parts[1];
    var n := |lon| + 1 + |lat|;
    var tail := Join(parts[1..], Comma);
    assert text == lon + [Comma] + tail;
    if |parts| == 2 {
      assert tail == lat;
      assert text == lon + [Comma] + lat;
    } else {
      assert parts[1..][1..] == parts[2..];
      assert tail == lat + [Comma] + Join(parts[2..], Comma);
      assert text == (lon + [Comma] + lat) + ([Comma] + Join(parts[2..], Comma));
    }
    assert text[..n] == lon + [Comma] + lat;
  }

  /** Any text that starts with comma-free `lon`, a comma and comma-free `lat`,
      and then ends or continues after a comma (an altitude, say), yields
      exactly that longitude and latitude. */
  lemma ParseLeadingFields(lon: string, lat: string, rest: string)
    requires Comma !in lon && Comma !in lat
    requires rest == [] || rest[0] == Comma
    ensures Parse(lon + [Comma] + lat + rest) == Some(Coordinate(lon, lat))
  {
    var inner := SplitLatitude(lat, rest);
    var text := lon + [Comma] + lat + rest;
    assert text == lon + [Comma] + (lat + rest);
    SplitAfterHead(lon, Comma, lat + rest);
    assert Split(text, Comma) == [lon] + inner;
  }

  /** The parts of `lat + rest` start with `lat`. */
  lemma SplitLatitude(lat: string, rest: string) returns (inner: seq<string>)
    requires Comma !in lat
    requires rest == [] || rest[0] == Comma
    ensures inner == Split(lat + rest, Comma) && |inner| >= 1 && inner[0] == lat
  {
    inner := Split(lat + rest, Comma);
    if rest == [] {
      assert lat + rest == lat;
      SplitNoSeparator(lat, Comma);
    } else {
      assert lat + rest == lat + [Comma] + rest[1..];
      SplitAfterHead(lat, Comma, rest[1..]);
    }
  }

  /** The altitude never affects the position read. */
  lemma AltitudeIgnored(lon: string, lat: string, alt1: string, alt2: string)
    requires Comma !in lon && Comma !in lat
    ensures Parse(lon + [Comma] + lat + [Comma] + alt1)
         == Parse(lon + [Comma] + lat + [Comma] + alt2)
         == Parse(lon + [Comma] + lat)
         == Some(Coordinate(lon, lat))
  {
    ParseLeadingFields(lon, lat, [Comma] + alt1);
    ParseLeadingFields(lon, lat, [Comma] + alt2);
    ParseLeadingFields(lon, lat, []);
    assert lon + [Comma] + lat + [Comma] + alt1 == lon + [Comma] + lat + ([Comma] + alt1);
    assert lon + [Comma] + lat + [Comma] + alt2 == lon + [Comma] + lat + ([Comma] + alt2);
    assert lon + [Comma] + lat + [] == lon + [Comma] + lat;
  }
}
