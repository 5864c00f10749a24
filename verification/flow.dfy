/**
  The page flow of app.py: choose the image source, derive its MIME type,
  ask the adapter for the letter, tell failure from success by the cross
  mark, and look up the clip for a recognised letter. Layout, styling and
  the audio element itself are left out; the screen records what is shown.
 */
module Flow {

  import opened Wrappers
  import PyStr
  import Resolver
  import Recognition
  import Prompt

  /** An image handed over by the upload or camera widget: its bytes and the
      media type it declares. */
  datatype Upload = Upload(data: seq<Recognition.byte>, declaredType: string)

  /** What the result area shows: the invitation to provide an image, the
      failure message for a flagged answer, or the recognised text with the
      clip that plays (or `None` for the "audio file not found" warning). */
  datatype Screen = AwaitingImage | MatchFailed(answer: string) | LetterShown(letter: string, clip: Option<string>)

  /** One page run: what is shown and the requests sent to the hosted model. */
  datatype Render = Render(screen: Screen, sent: seq<Recognition.Request>)

  /** `declared.split('/')[-1]`: the text after the last slash, or all of it
      when there is none. */
  function MimeSubtype(declared: string): (s: string)
    ensures '/' !in s
    ensures |s| <= |declared| && declared[|declared| - |s|..] == s
    ensures |s| < |declared| ==> declared[|declared| - |s| - 1] == '/'
  {
    var parts := PyStr.Split(declared, '/');
    PyStr.JoinEndsWithLast(parts, '/');
    assert |parts| == 1 ==> parts[0] == declared;
    parts[|parts| - 1]
  }

  /** `f"image/{declared.split('/')[-1]}"`: always `image/` followed by a
      slash-free subtype that ends the declared type. */
  function MimeType(declared: string): (m: string)
    ensures |m| >= 6 && m[..6] == "image/"
    ensures '/' !in m[6..]
    ensures |m| - 6 <= |declared| && declared[|declared| - (|m| - 6)..] == m[6..]
    ensures |m| - 6 < |declared| ==> declared[|declared| - (|m| - 6) - 1] == '/'
  {
    var s := MimeSubtype(declared);
    assert ("image/" + s)[6..] == s;
    "image/" + s
  }

  /** Deriving the MIME type again from its own output changes nothing. */
  lemma {:induction false} MimeTypeIdempotent(declared: string)
    ensures MimeType(MimeType(declared)) == MimeType(declared)
  {
    var s := MimeSubtype(declared);
    var m := "image/" + s;
    assert m == PyStr.Join(["image", s], '/');
    assert '/' !in "image";
    PyStr.SplitJoin(["image", s], '/');
  }

  /** The camera picture wins over an uploaded file when both are present;
      without a camera picture the upload, if any, is used. */
  function ChosenSource(camera: Option<Upload>, upload: Option<Upload>): (r: Option<Upload>)
    ensures r.None? <==> camera.None? && upload.None?
    ensures camera.Some? ==> r == camera
    ensures camera.None? ==> r == upload
  {
    if camera.Some? then camera else upload
  }

  /** The request the page makes for the chosen image: its bytes with the
      MIME type derived from its declared type. */
  function RequestOf(camera: Option<Upload>, upload: Option<Upload>): (q: Recognition.Request)
    requires camera.Some? || upload.Some?
    ensures var src := ChosenSource(camera, upload).value;
      q.image == src.data && q.mime == MimeType(src.declaredType)
    ensures q.model == Recognition.ModelName && q.allowed == Prompt.AllowedAsWritten
  {
    var src := ChosenSource(camera, upload).value;
    Recognition.RequestFor(src.data, MimeType(src.declaredType))
  }

  /** What the result area shows for the adapter's answer: a flagged answer
      shows the failure; otherwise the answer is shown with the clip the
      resolver finds. The page checks the clip's existence a second time
      before reading it; that check never changes the outcome. */
  function ScreenFor(answer: string, existing: set<string>): (s: Screen)
    ensures s.MatchFailed? <==> Recognition.FlaggedAsFailure(answer)
    ensures s.MatchFailed? ==> s.answer == answer
    ensures s.LetterShown? ==> s.letter == answer && s.clip == Resolver.AudioPath(answer, existing)
    ensures s.LetterShown? && s.clip.Some? ==> s.clip.value in existing
    ensures !Recognition.FlaggedAsFailure(answer) ==> s.LetterShown?
  {
    if Recognition.FlaggedAsFailure(answer) then
      MatchFailed(answer)
    else
      var clip := Resolver.AudioPath(answer, existing);
      var shown := if clip.Some? && clip.value in existing then clip else None;
      LetterShown(answer, shown)
  }

  /** The page for one submission. Nothing is sent without an image or a
      key and at most one request is sent, for the chosen image with its
      derived MIME type; with an image, the screen is the one for the
      adapter's answer. */
  function Present(camera: Option<Upload>, upload: Option<Upload>, key: Option<string>,
                   service: Recognition.Request -> Recognition.Reply, existing: set<string>): (r: Render)
    ensures |r.sent| <= 1
    ensures r.sent != [] <==> (camera.Some? || upload.Some?) && Recognition.HasKey(key)
    ensures r.sent != [] ==> var src := ChosenSource(camera, upload).value;
      r.sent[0].image == src.data && r.sent[0].mime == MimeType(src.declaredType)
    ensures r.sent != [] ==> r.sent == [RequestOf(camera, upload)]
    ensures r.screen.AwaitingImage? <==> camera.None? && upload.None?
    ensures r.screen.MatchFailed? ==> Recognition.FlaggedAsFailure(r.screen.answer)
    ensures r.screen.LetterShown? && r.screen.clip.Some? ==> r.screen.clip.value in existing
  {
    var source := ChosenSource(camera, upload);
    if source.None? then
      Render(AwaitingImage, [])
    else
      var image := source.value;
      var e := Recognition.Identify(key, image.data, MimeType(image.declaredType), service);
      Render(ScreenFor(e.answer, existing), e.sent)
  }

  /** With an image but no key, the page shows the connection failure and
      sends nothing. */
  lemma {:induction false} NoKeyShowsConnectionFailure(camera: Option<Upload>, upload: Option<Upload>, key: Option<string>,
                                    service: Recognition.Request -> Recognition.Reply, existing: set<string>)
    requires camera.Some? || upload.Some?
    requires !Recognition.HasKey(key)
    ensures Present(camera, upload, key, service, existing) == Render(MatchFailed(Recognition.ConnectionFailed), [])
  {
    Recognition.FailureStringsFlagged();
  }

  /** When the call for the chosen image raises, the page shows the
      processing failure after exactly one request. */
  lemma {:induction false} RaisedCallShowsProcessingFailure(camera: Option<Upload>, upload: Option<Upload>, key: Option<string>,
                                         service: Recognition.Request -> Recognition.Reply, existing: set<string>)
    requires camera.Some? || upload.Some?
    requires Recognition.HasKey(key)
    requires service(RequestOf(camera, upload)).Raised?
    ensures var r := Present(camera, upload, key, service, existing);
      r.screen == MatchFailed(Recognition.ProcessingFailed) && |r.sent| == 1
  {
    Recognition.FailureStringsFlagged();
  }

  /** The screen for a table letter shows the letter with its clip when
      the clip file exists, and with none otherwise. */
  lemma TableLetterScreen(letter: string, existing: set<string>)
    requires letter in Resolver.Table
    ensures var path := Resolver.ClipPath(Resolver.Table[letter]);
      ScreenFor(letter, existing) == LetterShown(letter, if path in existing then Some(path) else None)
  {
    Resolver.TableWellFormed();
    assert !Recognition.FlaggedAsFailure(letter);
    Resolver.KeyResolves(letter, [], [], existing);
    assert [] + letter + [] == letter;
  }

  /** A recognised table letter, padded or not, is shown stripped, and its
      clip plays exactly when the clip file exists. */
  lemma {:induction false} TableLetterPlays(letter: string, a: string, b: string, camera: Option<Upload>, upload: Option<Upload>,
                         key: Option<string>, service: Recognition.Request -> Recognition.Reply, existing: set<string>)
    requires letter in Resolver.Table
    requires PyStr.AllSpace(a) && PyStr.AllSpace(b)
    requires camera.Some? || upload.Some?
    requires Recognition.HasKey(key)
    requires service(RequestOf(camera, upload)) == Recognition.Answered(Some(a + letter + b))
    ensures var path := Resolver.ClipPath(Resolver.Table[letter]);
      Present(camera, upload, key, service, existing).screen
        == LetterShown(letter, if path in existing then Some(path) else None)
  {
    var src := ChosenSource(camera, upload).value;
    var mime := MimeType(src.declaredType);
    Recognition.AnsweredCallGivesStrippedText(key, src.data, mime, service, a + letter + b);
    Resolver.KeyResolves(letter, a, b, existing);
    assert Recognition.Identify(key, src.data, mime, service).answer == letter;
    TableLetterScreen(letter, existing);
  }
}
