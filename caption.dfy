/**
  `create_tweet_text`: the caption of a post, built from the parsed location
  fields and the flag. The sentinel "-" reads as "Unknown", verbose official
  country names are shortened, and the shape of the location depends on the
  country; two special cases are checked, in order, after composing.
 */
module Caption {
  import opened PyStr
  import opened CameraFields

  const UnknownLocation := "Unknown Location"

  /** A field with the "-" sentinel read as "Unknown". */
  function OrUnknown(field: string): (r: string)
    ensures r == "Unknown" <==> field == "-" || field == "Unknown"
    ensures field != "-" ==> r == field
    ensures r != "-"
  {
    if field == "-" then "Unknown" else field
  }

  /** The chain of `replace` calls that shortens official country names. */
  function NormalizeCountry(name: string): (r: string)
    ensures |r| <= |name|
  {
    Replace(Replace(Replace(Replace(Replace(name,
      ", Province Of", ""),
      ", Republic Of", ""),
      ", Islamic Republic", ""),
      "n Federation", ""),
      "ian, State Of", "e")
  }

  /** A name in which none of the five patterns occurs is left as it is. */
  lemma NormalizeKeepsPlainName(name: string)
    requires !Contains(name, ", Province Of") && !Contains(name, ", Republic Of")
    requires !Contains(name, ", Islamic Republic") && !Contains(name, "n Federation")
    requires !Contains(name, "ian, State Of")
    ensures NormalizeCountry(name) == name
  {
    ReplaceAbsent(name, ", Province Of", "");
    ReplaceAbsent(name, ", Republic Of", "");
    ReplaceAbsent(name, ", Islamic Republic", "");
    ReplaceAbsent(name, "n Federation", "");
    ReplaceAbsent(name, "ian, State Of", "e");
  }

  /** The country as the caption uses it. */
  function CountryOf(info: Info): (country: string)
    ensures info.country == "-" ==> country == "Unknown"
    ensures info.country != "-" ==> |country| <= |info.country|
  {
    if info.country != "-" then NormalizeCountry(info.country) else "Unknown"
  }

  /** A country name with no comma and no 'F' reaches the caption as it is. */
  lemma CountryOfPlainName(info: Info)
    requires info.country != "-" && ',' !in info.country && 'F' !in info.country
    ensures CountryOf(info) == info.country
  {
    NormalizeKeepsNameWithout(info.country);
  }

  /** The location before the special cases: the region is shown for the
      United States and Canada, the country for everyone but the United States. */
  function Location(city: string, region: string, country: string): (location: string)
    ensures |location| >= |city| + 2 && location[..|city| + 2] == city + ", "
    ensures country != "United States" ==>
              |location| >= |country| && location[|location| - |country|..] == country
    ensures country == "United States" ==> location[|city| + 2..] == region
  {
    if country == "United States" then city + ", " + region
    else if country == "Canada" then city + ", " + region + ", " + country
    else city + ", " + country
  }

  /** `create_tweet_text`: substitute the sentinel, normalise the country, compose. */
  function CreateTweetText(info: Info, flag: string): (text: string)
    ensures text == UnknownLocation || (|text| > |flag| && text[|text| - |flag| - 1..] == " " + flag)
    ensures text == UnknownLocation <==> OrUnknown(info.city) == "Unknown" && CountryOf(info) == "Unknown"
  {
    UnknownLocationIff(OrUnknown(info.city), OrUnknown(info.region), CountryOf(info), flag);
    ComposeCaption(OrUnknown(info.city), OrUnknown(info.region), CountryOf(info), flag)
  }

  /** The second half of `create_tweet_text`, from the substituted fields on.
      Every caption but "Unknown Location" ends in a space and the flag. */
  function ComposeCaption(city: string, region: string, country: string, flag: string): (text: string)
    ensures text == UnknownLocation || (|text| > |flag| && text[|text| - |flag| - 1..] == " " + flag)
  {
    var location := Location(city, region, country);
    if city == "Unknown" && region == "Unknown" && country == "United States" then
      "Unknown, United States " + flag
    else if location == "Unknown, Unknown" then
      UnknownLocation
    else
      location + " " + flag
  }

  /** "Unknown, Unknown" splits at its comma only one way. */
  lemma UnknownPairSplit(a: string, b: string)
    requires a + ", " + b == "Unknown, Unknown"
    ensures a == "Unknown" && b == "Unknown"
  {
    var t := a + ", " + b;
    assert t[|a|] == ',';
    assert |a| == 7;
    assert a == t[..7];
    assert b == t[9..];
  }

  /** Nothing of the form `prefix, rest` is "Unknown Location", which has no comma. */
  lemma NotUnknownLocation(prefix: string, rest: string)
    ensures prefix + ", " + rest != UnknownLocation
  {
    var t := prefix + ", " + rest;
    assert t[|prefix|] == ',';
    if |prefix| < |UnknownLocation| {
      assert UnknownLocation[|prefix|] != ',';
    }
  }

  /** United States: the region and no country; city and region both unknown
      give "Unknown, United States" and the flag, never "Unknown Location". */
  lemma CaptionForUnitedStates(city: string, region: string, flag: string)
    ensures ComposeCaption(city, region, "United States", flag) ==
              if city == "Unknown" && region == "Unknown" then "Unknown, United States " + flag
              else city + ", " + region + " " + flag
    ensures ComposeCaption(city, region, "United States", flag) != UnknownLocation
  {
    if city + ", " + region == "Unknown, Unknown" {
      UnknownPairSplit(city, region);
    }
    NotUnknownLocation("Unknown", "United States " + flag);
    assert "Unknown, United States " + flag == "Unknown" + ", " + ("United States " + flag);
    NotUnknownLocation(city, region + " " + flag);
    assert city + ", " + region + " " + flag == city + ", " + (region + " " + flag);
  }

  /** Canada: city, region and country, then the flag. */
  lemma CaptionForCanada(city: string, region: string, flag: string)
    ensures ComposeCaption(city, region, "Canada", flag) == city + ", " + region + ", Canada " + flag
  {
    var location := city + ", " + region + ", " + "Canada";
    assert location[|location| - 1] == 'a';
    assert location != "Unknown, Unknown";
    assert location + " " + flag == city + ", " + region + ", Canada " + flag;
  }

  /** Any other country: city and country; both unknown give "Unknown Location"
      with no flag. */
  lemma CaptionForOtherCountry(city: string, region: string, country: string, flag: string)
    requires country != "United States" && country != "Canada"
    ensures ComposeCaption(city, region, country, flag) ==
              if city == "Unknown" && country == "Unknown" then UnknownLocation
              else city + ", " + country + " " + flag
  {
    if city + ", " + country == "Unknown, Unknown" {
      UnknownPairSplit(city, country);
    }
  }

  /** The caption is "Unknown Location" exactly when the city and the country are unknown. */
  lemma UnknownLocationIff(city: string, region: string, country: string, flag: string)
    ensures ComposeCaption(city, region, country, flag) == UnknownLocation
            <==> city == "Unknown" && country == "Unknown"
  {
    if country == "United States" {
      CaptionForUnitedStates(city, region, flag);
    } else if country == "Canada" {
      CanadaNeverUnknown(city, region, flag);
    } else {
      OtherCountryUnknownIff(city, region, country, flag);
    }
  }

  lemma CanadaNeverUnknown(city: string, region: string, flag: string)
    ensures ComposeCaption(city, region, "Canada", flag) != UnknownLocation
  {
    CaptionForCanada(city, region, flag);
    NotUnknownLocation(city, region + ", Canada " + flag);
    assert city + ", " + region + ", Canada " + flag == city + ", " + (region + ", Canada " + flag);
  }

  lemma OtherCountryUnknownIff(city: string, region: string, country: string, flag: string)
    requires country != "United States" && country != "Canada"
    ensures ComposeCaption(city, region, country, flag) == UnknownLocation
            <==> city == "Unknown" && country == "Unknown"
  {
    CaptionForOtherCountry(city, region, country, flag);
    NotUnknownLocation(city, country + " " + flag);
    assert city + ", " + country + " " + flag == city + ", " + (country + " " + flag);
  }

  /** Four of the patterns hold a comma and the fifth an 'F': a name with
      neither, such as "United States" or "Canada", is left as it is. */
  lemma NormalizeKeepsNameWithout(name: string)
    requires ',' !in name && 'F' !in name
    ensures NormalizeCountry(name) == name
  {
    ReplaceAbsentChar(name, ", Province Of", "", ',');
    ReplaceAbsentChar(name, ", Republic Of", "", ',');
    ReplaceAbsentChar(name, ", Islamic Republic", "", ',');
    ReplaceAbsentChar(name, "n Federation", "", 'F');
    ReplaceAbsentChar(name, "ian, State Of", "e", ',');
  }

  /** A camera in the United States: "-" fields read as "Unknown", the country
      stays "United States" and is not shown. */
  lemma TweetTextForUnitedStates(info: Info, flag: string)
    requires info.country == "United States"
    ensures var city, region := OrUnknown(info.city), OrUnknown(info.region);
            CreateTweetText(info, flag) ==
              if city == "Unknown" && region == "Unknown" then "Unknown, United States " + flag
              else city + ", " + region + " " + flag
  {
    NormalizeKeepsNameWithout("United States");
    CaptionForUnitedStates(OrUnknown(info.city), OrUnknown(info.region), flag);
  }

  /** A camera in Canada: city, province and country, whatever is unknown. */
  lemma TweetTextForCanada(info: Info, flag: string)
    requires info.country == "Canada"
    ensures CreateTweetText(info, flag) ==
              OrUnknown(info.city) + ", " + OrUnknown(info.region) + ", Canada " + flag
  {
    NormalizeKeepsNameWithout("Canada");
    CaptionForCanada(OrUnknown(info.city), OrUnknown(info.region), flag);
  }

  /** A US camera whose city and state are unknown still names the country. */
  lemma CaptionUnknownInUnitedStates(flag: string)
    ensures CreateTweetText(Info("-", "-", "United States", "US"), flag)
            == "Unknown, United States " + flag
  {
    TweetTextForUnitedStates(Info("-", "-", "United States", "US"), flag);
  }

  /** A camera about which nothing is known. */
  lemma CaptionNothingKnown(flag: string)
    ensures CreateTweetText(Info("-", "-", "-", "-"), flag) == UnknownLocation
  {
    UnknownLocationIff("Unknown", "Unknown", "Unknown", flag);
  }

  /** The "n Federation" step on "Russian Federation". */
  lemma RussianFederationStep()
    ensures Replace("Russian Federation", "n Federation", "") == "Russia"
  {
    var ru := "Russian Federation";
    assert ru[6..18] == "n Federation";
    assert OccursAt(ru, "n Federation", 6);
    forall j | 0 <= j < 6 ensures !OccursAt(ru, "n Federation", j) {
      if 0 <= j && j + 12 <= |ru| {
        assert ru[j..j + 12][0] == ru[j] != 'n';
      }
    }
    FindAt(ru, "n Federation", 6);
    assert ru[..6] == "Russia";
    assert ru[18..] == [];
  }

  lemma NormalizeRussia()
    ensures NormalizeCountry("Russian Federation") == "Russia"
  {
    var ru := "Russian Federation";
    assert ',' !in ru;
    ReplaceAbsentChar(ru, ", Province Of", "", ',');
    ReplaceAbsentChar(ru, ", Republic Of", "", ',');
    ReplaceAbsentChar(ru, ", Islamic Republic", "", ',');
    RussianFederationStep();
    ReplaceAbsentChar("Russia", "ian, State Of", "e", ',');
  }

  /** The "ian, State Of" step on "Palestinian, State Of". */
  lemma PalestineStep()
    ensures Replace("Palestinian, State Of", "ian, State Of", "e") == "Palestine"
  {
    var ps := "Palestinian, State Of";
    assert ps[8..21] == "ian, State Of";
    assert OccursAt(ps, "ian, State Of", 8);
    forall j | 0 <= j < 8 ensures !OccursAt(ps, "ian, State Of", j) {
      if 0 <= j && j + 13 <= |ps| {
        assert ps[j..j + 13][0] == ps[j] && ps[j..j + 13][1] == ps[j + 1];
      }
    }
    FindAt(ps, "ian, State Of", 8);
    assert ps[..8] == "Palestin";
    assert ps[21..] == [];
  }

  /** A name without 'r', 'R', 'I' and 'F' is changed by the last step alone. */
  lemma NormalizeByLastStep(name: string)
    requires 'r' !in name && 'R' !in name && 'I' !in name && 'F' !in name
    ensures NormalizeCountry(name) == Replace(name, "ian, State Of", "e")
  {
    ReplaceAbsentChar(name, ", Province Of", "", 'r');
    ReplaceAbsentChar(name, ", Republic Of", "", 'R');
    ReplaceAbsentChar(name, ", Islamic Republic", "", 'I');
    ReplaceAbsentChar(name, "n Federation", "", 'F');
  }

  lemma NormalizePalestine()
    ensures NormalizeCountry("Palestinian, State Of") == "Palestine"
  {
    NormalizeByLastStep("Palestinian, State Of");
    PalestineStep();
  }
}
