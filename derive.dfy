/**
  The text derivations both scraper scripts apply to what they pull out of
  the events pages: the cleaned date text, the event-type tag cut from the
  event path, the fighter token cut from an athlete link, the
  "<red> vs <blue>" pairing and the older script's main-card title.
 */
module Derive {
  import opened Wrappers
  import opened Strings

  /** The exceptions the scripts let escape; any of them ends the run. */
  datatype ScrapeError =
    | MissingElement(what: string)     // AttributeError: `.a` or `.text` on a missing tag
    | MissingAttribute(name: string)   // KeyError or TypeError: `tag['href']` with no such attribute or no tag
    | IndexOutOfRange(what: string)    // IndexError on a list subscript
    | UnparseableDate(text: string)    // ValueError raised by the date parser

  /** Suffix the listing page appends to the date of a card's main event. */
  const MainCardMarker: string := "/ Main Card"
  /** Prefix of every athlete link on an event page. */
  const AthletePrefix: string := "https://www.ufc.com/athlete/"
  /** Site root that is put in front of an event path to fetch its page. */
  const SiteRoot: string := "https://www.ufc.com"
  /** Width of the `event_type VARCHAR(15)` column. */
  const EventTypeWidth: nat := 15

  // ---------------------------------------------------------------------
  // Date text
  // ---------------------------------------------------------------------

  /** `date.a.text.replace("/ Main Card", "").replace("/", ",")`. */
  function CleanDate(text: string): string
  {
    Replace(Replace(text, MainCardMarker, ""), "/", ",")
  }

  /**
    After cleaning, no `/` is left: each main-card marker is gone and every
    other `/` became `,` in place; nothing else moves, so the text never
    grows, and text that had no `/` at all comes back unchanged.
   */
  lemma CleanDateSpec(text: string)
    ensures '/' !in CleanDate(text)
    ensures |CleanDate(text)| <= |text|
    ensures '/' !in text ==> CleanDate(text) == text
    ensures var m := Replace(text, MainCardMarker, "");
      |CleanDate(text)| == |m| &&
      forall i :: 0 <= i < |m| ==> CleanDate(text)[i] == (if m[i] == '/' then ',' else m[i])
  {
    var m := Replace(text, MainCardMarker, "");
    ReplaceCharGone(m, '/', ",");
    ReplaceCharByChar(m, '/', ',');
    ReplaceShrinks(text, MainCardMarker, "");
    if '/' !in text {
      ReplaceAbsent(text, MainCardMarker, "");
      ReplaceAbsent(text, "/", ",");
    }
  }

  // ---------------------------------------------------------------------
  // Event type
  // ---------------------------------------------------------------------

  /**
    `event_url.split("/")[2].replace("-", "_")[:15]`: the third
    `/`-separated segment of the event path, with `-` turned into `_`, cut
    to the column width; fewer than three segments raise IndexError.
   */
  function EventType(eventUrl: string): Result<string, ScrapeError>
  {
    var parts := Split(eventUrl, "/");
    if |parts| < 3 then Err(IndexOutOfRange("event_url.split('/')[2]"))
    else Ok(Slice(Replace(parts[2], "-", "_"), EventTypeWidth))
  }

  /**
    The tag exists exactly when the path holds at least two `/`; it then
    fits the VARCHAR(15) column, holds no `-` and no `/`, is the first 15
    characters of the third segment with each `-` turned into `_` in place,
    and a third segment that is already short and free of `-` is taken whole.
   */
  lemma EventTypeSpec(eventUrl: string)
    ensures EventType(eventUrl).Ok? <==> Count(eventUrl, '/') >= 2
    ensures EventType(eventUrl).Ok? ==>
      var t := EventType(eventUrl).value;
      |t| <= EventTypeWidth && '-' !in t && '/' !in t
    ensures EventType(eventUrl).Ok? ==>
      var segment := Split(eventUrl, "/")[2];
      |segment| <= EventTypeWidth && '-' !in segment ==> EventType(eventUrl).value == segment
    ensures EventType(eventUrl).Ok? ==>
      var segment := Split(eventUrl, "/")[2];
      var t := EventType(eventUrl).value;
      |t| == (if |segment| <= EventTypeWidth then |segment| else EventTypeWidth) &&
      forall i :: 0 <= i < |t| ==> t[i] == (if segment[i] == '-' then '_' else segment[i])
  {
    SplitCharCount(eventUrl, '/');
    var parts := Split(eventUrl, "/");
    if |parts| >= 3 {
      var segment := parts[2];
      SplitCharPieces(eventUrl, '/');
      assert '/' !in segment;
      ReplaceCharGone(segment, '-', "_");
      var mapped := Replace(segment, "-", "_");
      var t := Slice(mapped, EventTypeWidth);
      assert t == mapped[..|t|];
      assert forall c :: c in t ==> c in mapped;
      ReplaceKeepsAbsent(segment, "-", "_", '/');
      ReplaceCharByChar(segment, '-', '_');
      if '-' !in segment {
        ReplaceAbsent(segment, "-", "_");
      }
    }
  }

  // ---------------------------------------------------------------------
  // Fighters and pairings
  // ---------------------------------------------------------------------

  /** `href.replace("https://www.ufc.com/athlete/", "").replace("-", "_")`. */
  function FighterToken(href: string): string
  {
    Replace(Replace(href, AthletePrefix, ""), "-", "_")
  }

  /** Text without an occurrence of `pat` is left alone by `replace`. */
  lemma {:induction false} ReplaceNotIncluded(s: string, pat: string, rep: string)
    requires |pat| > 0 && !Includes(s, pat)
    ensures Replace(s, pat, rep) == s
    decreases |s|
  {
    if |s| >= |pat| {
      ReplaceNotIncluded(s[1..], pat, rep);
    }
  }

  /** A fighter token holds no `-`, and a link without spaces gives a token without spaces. */
  lemma FighterTokenSpec(href: string)
    ensures '-' !in FighterToken(href)
    ensures ' ' !in href ==> ' ' !in FighterToken(href)
  {
    ReplaceCharGone(Replace(href, AthletePrefix, ""), '-', "_");
    if ' ' !in href {
      ReplaceKeepsAbsent(href, AthletePrefix, "", ' ');
      ReplaceKeepsAbsent(Replace(href, AthletePrefix, ""), "-", "_", ' ');
    }
  }

  /**
    The token of an athlete link is the athlete's slug with every `-`
    turned into `_` in place.
   */
  lemma AthleteLinkToken(slug: string)
    requires !Includes(slug, AthletePrefix)
    ensures |FighterToken(AthletePrefix + slug)| == |slug|
    ensures forall i :: 0 <= i < |slug| ==>
      FighterToken(AthletePrefix + slug)[i] == (if slug[i] == '-' then '_' else slug[i])
  {
    var s := AthletePrefix + slug;
    assert s[..|AthletePrefix|] == AthletePrefix && s[|AthletePrefix|..] == slug;
    ReplaceNotIncluded(slug, AthletePrefix, "");
    assert Replace(s, AthletePrefix, "") == slug;
    ReplaceCharByChar(slug, '-', '_');
  }

  /** `fighter1 + " vs " + fighter2`. */
  function Pairing(red: string, blue: string): string
  {
    red + " vs " + blue
  }

  /**
    Splitting a pairing of two space-free tokens on `" vs "` gives the two
    tokens back, red first.
   */
  lemma PairingSplits(red: string, blue: string)
    requires ' ' !in red && ' ' !in blue
    ensures Split(Pairing(red, blue), " vs ") == [red, blue]
  {
    var sep := " vs ";
    var tail := sep + blue;
    assert Pairing(red, blue) == red + tail;
    SplitClearPrefix(red, tail, sep);
    assert tail[..|sep|] == sep && tail[|sep|..] == blue;
    SplitClearPrefix(blue, [], sep);
    assert blue + [] == blue;
    assert Split(blue, sep) == [blue];
    assert Split(tail, sep) == [[]] + Split(blue, sep) == [[], blue];
    assert red + [] == red;
    assert [red] + [blue] == [red, blue];
  }

  // ---------------------------------------------------------------------
  // Main card (older script)
  // ---------------------------------------------------------------------

  /**
    `event_all_fighters[0].replace("_", " ").title()`: the first pairing
    with `_` turned into spaces and title-cased; an empty roster raises
    IndexError.
   */
  function MainCard(roster: seq<string>): Result<string, ScrapeError>
  {
    if |roster| == 0 then Err(IndexOutOfRange("event_all_fighters[0]"))
    else Ok(Title(Replace(roster[0], "_", " ")))
  }

  lemma LowerCharUnderscore(c: char)
    ensures LowerChar(c) == '_' <==> c == '_'
  {
  }

  /**
    The main card exists exactly when the roster is not empty; it then holds
    no `_`, is as long as the first pairing, and agrees with it position by
    position up to letter case, with each `_` read as a space; the case is
    title case: a letter right after a cased letter is lower case, any other
    is upper case.
   */
  lemma MainCardSpec(roster: seq<string>)
    ensures MainCard(roster).Ok? <==> |roster| > 0
    ensures MainCard(roster).Ok? ==>
      var title := MainCard(roster).value;
      '_' !in title && |title| == |roster[0]| &&
      forall i :: 0 <= i < |title| ==>
        LowerChar(title[i]) == LowerChar(if roster[0][i] == '_' then ' ' else roster[0][i])
    ensures MainCard(roster).Ok? ==>
      var title := MainCard(roster).value;
      forall i :: 0 <= i < |title| ==>
        var c := if roster[0][i] == '_' then ' ' else roster[0][i];
        title[i] == (if i > 0 && IsCased(roster[0][i - 1]) then LowerChar(c) else UpperChar(c))
  {
    if |roster| > 0 {
      var m := Replace(roster[0], "_", " ");
      ReplaceCharByChar(roster[0], '_', ' ');
      ReplaceCharGone(roster[0], '_', " ");
      TitleFromChangesOnlyCase(m, false);
      TitleByPosition(m);
      var title := Title(m);
      forall i | 0 <= i < |title| ensures title[i] != '_' {
        LowerCharUnderscore(title[i]);
        LowerCharUnderscore(m[i]);
        assert m[i] in m;
      }
    }
  }
}
