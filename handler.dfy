/**
  The decisions and strings of `game_handler` in bot.py: giving up when no
  record or no cover was found, the file name the poster is saved under, the
  caption, and the order of the handler's outward effects.
 */
module Handler {

  import opened Wrappers
  import opened Resolver
  import opened Composer

  const SaveDir: string := "covers"
  const SearchingText: string := "🔍 Ищу игру..."
  const NotFoundText: string := "❌ Обложка не найдена"
  const CaptionPrefix: string := "✅ "
  const CaptionSuffix: string := "\n1080x1920"

  // ---------------------------------------------------------------------------
  // File name
  // ---------------------------------------------------------------------------

  /** `s.replace(c, "")`: every occurrence of `c` removed. */
  function RemoveChar(s: string, c: char): (r: string)
    ensures c !in r
    ensures |r| <= |s|
  {
    if s == [] then []
    else
      assert s == [s[0]] + s[1..];
      if s[0] == c then RemoveChar(s[1..], c) else [s[0]] + RemoveChar(s[1..], c)
  }

  /** Removing `c` keeps the number of occurrences of every other character
      and drops all of `c`'s. */
  lemma {:induction false} RemoveCharCounts(s: string, c: char)
    ensures multiset(RemoveChar(s, c))[c] == 0
    ensures forall d :: d != c ==> multiset(RemoveChar(s, c))[d] == multiset(s)[d]
  {
    if s != [] {
      RemoveCharCounts(s[1..], c);
      assert s == [s[0]] + s[1..];
      assert multiset(s) == multiset([s[0]]) + multiset(s[1..]);
    }
  }

  /** `name.replace(":", "").replace("/", "")`. */
  function SanitizeFilename(name: string): (r: string)
    ensures ':' !in r && '/' !in r
    ensures forall d :: d != ':' && d != '/' ==> multiset(r)[d] == multiset(name)[d]
  {
    var once := RemoveChar(name, ':');
    RemoveCharCounts(name, ':');
    RemoveCharCounts(once, '/');
    var r := RemoveChar(once, '/');
    assert multiset(once)[':'] == 0;
    assert ':' !in r by {
      assert multiset(r)[':'] == multiset(once)[':'];
    }
    r
  }

  predicate Allowed(c: char) { c != ':' && c != '/' }

  /** One pass over the name keeping the allowed characters, in order. */
  function KeepAllowed(s: string): (r: string)
  {
    if s == [] then [] else (if Allowed(s[0]) then [s[0]] else []) + KeepAllowed(s[1..])
  }

  /** The two `replace` passes keep exactly the allowed characters, in their
      original order. */
  lemma {:induction false} SanitizeKeepsOrder(s: string)
    ensures SanitizeFilename(s) == KeepAllowed(s)
  {
    if s != [] {
      SanitizeKeepsOrder(s[1..]);
      assert s == [s[0]] + s[1..];
      if s[0] == ':' {
        assert RemoveChar(s, ':') == RemoveChar(s[1..], ':');
      } else {
        var t := RemoveChar(s[1..], ':');
        assert RemoveChar(s, ':') == [s[0]] + t;
        assert ([s[0]] + t)[1..] == t;
      }
    }
  }

  /** A string without `c` is left as it is. */
  lemma {:induction false} RemoveCharAbsent(s: string, c: char)
    requires c !in s
    ensures RemoveChar(s, c) == s
  {
    if s != [] {
      assert c !in s[1..] by {
        forall i | 0 <= i < |s[1..]| ensures s[1..][i] != c { assert s[1..][i] == s[i + 1]; }
      }
      RemoveCharAbsent(s[1..], c);
      assert s == [s[0]] + s[1..];
    }
  }

  /** Sanitising a sanitised name changes nothing. */
  lemma SanitizeIdempotent(name: string)
    ensures SanitizeFilename(SanitizeFilename(name)) == SanitizeFilename(name)
  {
    var once := SanitizeFilename(name);
    RemoveCharAbsent(once, ':');
    RemoveCharAbsent(once, '/');
  }

  /** `f"{SAVE_DIR}/{filename}.jpg"`. The first clause is the f-string; the
      second is the property: the file lands directly in `SaveDir`, since the
      separator after it is the path's only `/`. */
  function PosterPath(name: string): (p: string)
    ensures p == SaveDir + "/" + SanitizeFilename(name) + ".jpg"
    ensures forall i :: 0 <= i < |p| && p[i] == '/' ==> i == |SaveDir|
  {
    var f := SanitizeFilename(name);
    var p := SaveDir + "/" + f + ".jpg";
    assert forall i :: |SaveDir| < i < |SaveDir| + 1 + |f| ==> p[i] == f[i - |SaveDir| - 1];
    p
  }

  // ---------------------------------------------------------------------------
  // Caption
  // ---------------------------------------------------------------------------

  /** `f"✅ {game['name']}\n1080x1920"` (the unsanitised name). The clauses cut
      the caption into its three parts; `CaptionRoundTrip` uses them to read
      the name back. */
  function Caption(name: string): (c: string)
    ensures |c| == |CaptionPrefix| + |name| + |CaptionSuffix|
    ensures c[..|CaptionPrefix|] == CaptionPrefix
    ensures c[|c| - |CaptionSuffix|..] == CaptionSuffix
    ensures c[|CaptionPrefix|..|c| - |CaptionSuffix|] == name
  {
    CaptionPrefix + name + CaptionSuffix
  }

  /** Reads the game's name back from a caption. */
  function NameOfCaption(c: string): (name: Option<string>)
  {
    if |c| >= |CaptionPrefix| + |CaptionSuffix|
       && c[..|CaptionPrefix|] == CaptionPrefix
       && c[|c| - |CaptionSuffix|..] == CaptionSuffix
    then Some(c[|CaptionPrefix|..|c| - |CaptionSuffix|])
    else None
  }

  /** The caption determines the name it was made from. */
  lemma CaptionRoundTrip(name: string)
    ensures NameOfCaption(Caption(name)) == Some(name)
  {
  }

  /** Decimal digits of a natural number. */
  function Decimal(n: nat): (digits: string)
  {
    if n < 10 then ["0123456789"[n]] else Decimal(n / 10) + ["0123456789"[n % 10]]
  }

  /** The dimensions written into the caption are those of the canvas. */
  lemma CaptionNamesCanvas()
    ensures CaptionSuffix == "\n" + Decimal(TargetW) + "x" + Decimal(TargetH)
  {
    assert Decimal(1080) == "1080" by {
      assert Decimal(1) == "1";
      assert Decimal(10) == "10";
      assert Decimal(108) == "108";
    }
    assert Decimal(1920) == "1920" by {
      assert Decimal(1) == "1";
      assert Decimal(19) == "19";
      assert Decimal(192) == "192";
    }
  }

  // ---------------------------------------------------------------------------
  // The handler
  // ---------------------------------------------------------------------------

  /** What the handler does to the outside world, in order. */
  datatype Effect =
    | Answer(text: string)
    | Download(imageId: string)
    | Save(path: string, poster: Image)
    | AnswerPhoto(path: string, caption: string)

  /** `if not game or "cover" not in game`. */
  predicate GivesUp(game: Option<Candidate>)
  {
    game.None? || game.value.cover.None?
  }

  /** `game_handler` for the stripped text `gameName`, given the catalog's
      response and the image the download decodes to. When that image cannot
      be composed, `make_tiktok_cover` raises right after the download and the
      handler ends there, with neither a saved file nor a reply. */
  function GameHandler(gameName: string, resp: Response, fetched: Image): (effects: seq<Effect>)
    requires fetched.width >= 1 && fetched.height >= 1
    ensures |effects| >= 2 && effects[0] == Answer(SearchingText)
    ensures GivesUp(SearchGame(resp, gameName)) <==> effects == [Answer(SearchingText), Answer(NotFoundText)]
    ensures !GivesUp(SearchGame(resp, gameName)) ==>
      effects[1] == Download(SearchGame(resp, gameName).value.cover.value)
    ensures !GivesUp(SearchGame(resp, gameName)) && !Composable(fetched) ==>
      effects == [Answer(SearchingText), Download(SearchGame(resp, gameName).value.cover.value)]
    ensures !GivesUp(SearchGame(resp, gameName)) && Composable(fetched) ==>
      var game := SearchGame(resp, gameName).value;
      |effects| == 4 &&
      effects[1] == Download(game.cover.value) &&
      effects[2] == Save(PosterPath(game.name), Image(TargetW, TargetH)) &&
      effects[3] == AnswerPhoto(PosterPath(game.name), Caption(game.name))
  {
    var game := SearchGame(resp, gameName);
    if GivesUp(game) then
      [Answer(SearchingText), Answer(NotFoundText)]
    else
      var fetch := [Answer(SearchingText), Download(game.value.cover.value)];
      if !Composable(fetched) then fetch
      else
        var path := PosterPath(game.value.name);
        fetch + [Save(path, MakeTiktokCover(fetched)),
                 AnswerPhoto(path, Caption(game.value.name))]
  }

  /** The handler gives up exactly when the catalog request failed, the answer
      was empty, or the record `pick_main_game` chose has no cover. */
  lemma GivesUpExactly(resp: Response, gameName: string)
    ensures GivesUp(SearchGame(resp, gameName)) <==>
      resp.status != StatusOk || |resp.results| == 0 ||
      PickMainGame(resp.results, gameName).cover.None?
  {
  }

  /** A failed request and a found record without artwork get the same reply. */
  lemma NoMatchAndNoArtworkAlike(gameName: string, status: int, rs: seq<Candidate>, fetched: Image)
    requires fetched.width >= 1 && fetched.height >= 1
    requires status != StatusOk
    requires |rs| > 0 && forall j :: 0 <= j < |rs| ==> rs[j].cover.None?
    ensures GameHandler(gameName, Response(status, rs), fetched)
         == GameHandler(gameName, Response(StatusOk, rs), fetched)
  {
    assert PickMainGame(rs, gameName).cover.None?;
  }

  /** The end-to-end example: one exactly matching record with artwork. */
  lemma ExampleSoma(fetched: Image)
    requires Composable(fetched)
    ensures GameHandler("Soma", Response(StatusOk, [Candidate("SOMA", Some("co1"))]), fetched)
         == [Answer(SearchingText), Download("co1"),
             Save("covers/SOMA.jpg", Image(1080, 1920)),
             AnswerPhoto("covers/SOMA.jpg", "✅ SOMA\n1080x1920")]
  {
    var soma := Candidate("SOMA", Some("co1"));
    SomaIsPicked();
    assert SearchGame(Response(StatusOk, [soma]), "Soma") == Some(soma);
    SomaPath();
    assert Caption("SOMA") == "✅ SOMA\n1080x1920";
  }

  /** A cover 2000 pixels tall and 1 wide: the foreground resize raises, so
      the handler stops after the download. */
  lemma ExampleVeryTallCover()
    ensures GameHandler("x", Response(StatusOk, [Candidate("x", Some("c"))]), Image(1, 2000))
         == [Answer(SearchingText), Download("c")]
  {
    assert PickMainGame([Candidate("x", Some("c"))], "x") == Candidate("x", Some("c"));
    assert !Composable(Image(1, 2000));
  }

  lemma SomaIsPicked()
    ensures PickMainGame([Candidate("SOMA", Some("co1"))], "Soma") == Candidate("SOMA", Some("co1"))
  {
  }

  lemma SomaPath()
    ensures PosterPath("SOMA") == "covers/SOMA.jpg"
  {
    RemoveCharAbsent("SOMA", ':');
    RemoveCharAbsent("SOMA", '/');
  }
}
