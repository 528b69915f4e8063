/** The state of the article page (`MainComponent`) and the handlers that
    update it: the keyword step, the submission of an article request, the
    arrival of the two images, and the stream callbacks. Network replies are
    parameters of the handlers. */
module Page {
  import opened Wrappers
  import opened Strings
  import opened Keywords
  import opened Markdown
  import opened Render

  /** The `result` record: the finished article and the two image URLs, each
      empty while unset. */
  datatype ArticleResult = ArticleResult(article: string, headerImage: string, footerImage: string)

  const EmptyResult := ArticleResult("", "", "")

  /** The three error messages the page can show. */
  datatype Message =
    | MissingTopic           // the topic is blank
    | KeywordsFailed         // the keyword request failed
    | ArticleOrImagesFailed  // the article request or an image request failed

  class ArticlePage {
    var topic: string             // `mainKeyword`
    var keywords: seq<string>
    var result: ArticleResult
    var error: Option<Message>
    var streamingMessage: string
    var imagesPending: bool       // the article request responded; the image requests follow

    /** Every keyword held came out of `ParseKeywords`: none is blank and none
        holds a newline, so the list survives being joined into the article
        request and parsed again. */
    ghost predicate Valid()
      reads this
    {
      forall i :: 0 <= i < |keywords| ==> !IsBlank(keywords[i]) && '\n' !in keywords[i]
    }

    /** The initial state of the component. */
    constructor ()
      ensures Valid()
      ensures topic == "" && keywords == [] && result == EmptyResult
      ensures error == None && streamingMessage == "" && !imagesPending
    {
      topic := "";
      keywords := [];
      result := EmptyResult;
      error := None;
      streamingMessage := "";
      imagesPending := false;
    }

    /** The topic input's change handler. */
    method SetTopic(t: string)
      requires Valid()
      modifies this`topic
      ensures Valid() && topic == t
    {
      topic := t;
    }

    /** `generateKeywords`, given the reply text of the keyword request, or
        `None` when the request failed. A blank topic only sets the error. */
    method GenerateKeywords(reply: Option<string>)
      requires Valid()
      modifies this`keywords, this`error
      ensures Valid()
      ensures IsBlank(topic) ==> error == Some(MissingTopic) && keywords == old(keywords)
      ensures !IsBlank(topic) && reply.Some? ==> error == None && keywords == ParseKeywords(reply.value)
      ensures !IsBlank(topic) && reply.None? ==> error == Some(KeywordsFailed) && keywords == old(keywords)
    {
      if IsBlank(topic) {
        error := Some(MissingTopic);
        return;
      }
      error := None;
      match reply
      case Some(content) =>
        keywords := ParseKeywords(content);
      case None =>
        error := Some(KeywordsFailed);
    }

    /** `generateArticle` up to handing the article response to the stream
        reader. `responded` says whether the article request produced a
        response; the stream is started, and the images then requested,
        exactly when the topic is not blank and it did. */
    method GenerateArticle(responded: bool) returns (streamStarted: bool)
      requires Valid()
      modifies this`result, this`error, this`imagesPending
      ensures Valid()
      ensures streamStarted <==> !IsBlank(topic) && responded
      ensures IsBlank(topic) ==> imagesPending == old(imagesPending)
      ensures !IsBlank(topic) ==> imagesPending == streamStarted
      ensures IsBlank(topic) ==> error == Some(MissingTopic) && result == old(result)
      ensures !IsBlank(topic) ==> result == EmptyResult
      ensures !IsBlank(topic) ==> error == if responded then None else Some(ArticleOrImagesFailed)
    {
      if IsBlank(topic) {
        error := Some(MissingTopic);
        return false;
      }
      error := None;
      result := EmptyResult;
      if !responded {
        error := Some(ArticleOrImagesFailed);
        imagesPending := false;
        return false;
      }
      streamStarted := true;
      imagesPending := true;
    }

    /** The rest of `generateArticle`: the header image request, then the
        footer image request, each `None` when it failed. Both URLs are stored
        together, only when both requests succeeded, and the article already
        in `result` is kept. The image requests are made only after the
        article request responded, once per such response. */
    method ImagesFetched(header: Option<string>, footer: Option<string>)
      requires Valid() && imagesPending
      modifies this`result, this`error, this`imagesPending
      ensures Valid() && !imagesPending
      ensures header.Some? && footer.Some? ==>
        result == old(result).(headerImage := header.value, footerImage := footer.value) &&
        error == old(error)
      ensures header.None? || footer.None? ==>
        result == old(result) && error == Some(ArticleOrImagesFailed)
      ensures result.article == old(result.article)
    {
      imagesPending := false;
      if header.None? {
        error := Some(ArticleOrImagesFailed);
        return;
      }
      if footer.None? {
        error := Some(ArticleOrImagesFailed);
        return;
      }
      result := result.(headerImage := header.value, footerImage := footer.value);
    }

    /** The keyword lines of the article request, `keywords.join("\n")`: they
        parse back to the same list, so no keyword is lost or split on its way
        into the request. */
    function KeywordLines(): (lines: string)
      reads this
      requires Valid()
      ensures keywords != [] ==> ParseKeywords(lines) == keywords
      ensures keywords == [] ==> lines == []
    {
      var lines := Join(keywords, '\n');
      if keywords == [] then lines
      else
        ParseJoinedKeywords(keywords);
        lines
    }

    /** `onChunk`: the stream reader hands over the text received so far. */
    method OnChunk(text: string)
      requires Valid()
      modifies this`streamingMessage
      ensures Valid() && streamingMessage == text
      ensures DisplayedText() == if text != [] then text else result.article
    {
      streamingMessage := text;
    }

    /** `onFinish`: the final text becomes the article, both images are kept,
        and the live text is cleared, so the final text is what is shown. */
    method OnFinish(message: string)
      requires Valid()
      modifies this`result, this`streamingMessage
      ensures Valid()
      ensures result == old(result).(article := message) && streamingMessage == ""
      ensures DisplayedText() == message
    {
      result := result.(article := message);
      streamingMessage := "";
    }

    /** `streamingMessage || result.article`: the live text while there is
        any, otherwise the finished article. */
    function DisplayedText(): (s: string)
      reads this
      ensures s == streamingMessage || s == result.article
      ensures s == [] <==> streamingMessage == [] && result.article == []
      ensures streamingMessage != [] ==> s == streamingMessage
    {
      if streamingMessage != [] then streamingMessage else result.article
    }

    /** What the article panel shows between the two images. */
    function View(): (r: Option<seq<Node>>)
      reads this
      ensures r.None? <==> streamingMessage == [] && result.article == []
      ensures r.Some? ==> |r.value| == |Split(DisplayedText(), '\n')|
      ensures r.Some? ==> forall i :: 0 <= i < |r.value| ==>
        r.value[i] == NodeOf(Classify(Split(DisplayedText(), '\n')[i]))
    {
      ViewRender(DisplayedText())
    }

    /** `convertToHtml(text)`, building the string piece by piece from the
        image URLs in `result` and the topic used in the images' `alt`. */
    method ConvertToHtml(text: string) returns (html: string)
      ensures html == Document(text, result.headerImage, result.footerImage, topic)
      ensures text == [] ==> html == []
    {
      if text == [] {
        return "";
      }
      html := "";
      if result.headerImage != [] {
        html := html + HeaderImage(result.headerImage, topic) + "\n\n";
      }
      assert html == HeaderBlock(result.headerImage, topic);
      html := html + HtmlBody(text);
      ghost var front := html;
      if result.footerImage != [] {
        html := html + "\n\n" + FooterImage(result.footerImage, topic);
        assert html == front + FooterBlock(result.footerImage, topic);
      }
    }

    /** The HTML that the copy button exports: that of the finished article,
        never of the live text. */
    method CopyHtmlContent() returns (html: string)
      ensures html == Document(result.article, result.headerImage, result.footerImage, topic)
    {
      html := ConvertToHtml(result.article);
    }
  }

  /** A topic whose first character is not whitespace passes the blank-topic
      guard. */
  lemma VisibleTopicNotBlank(t: string)
    requires t != [] && !IsWs(t[0])
    ensures !IsBlank(t)
  {
    TrimEmptyIff(t);
    assert !IsWs(t[0]);
  }

  /** A fresh page on which the topic `t` was submitted and the article
      request responded: the stream is about to deliver its first chunk. */
  method StartedPage(t: string) returns (page: ArticlePage)
    requires t != [] && !IsWs(t[0])
    ensures fresh(page) && page.Valid() && page.topic == t
    ensures page.result == EmptyResult && page.error == None
    ensures page.streamingMessage == [] && page.imagesPending
  {
    page := new ArticlePage();
    page.SetTopic(t);
    VisibleTopicNotBlank(t);
    var started := page.GenerateArticle(true);
  }

  /** A submission whose stream delivers "Hello", " world", "!" and then
      finishes, with both images arriving after the stream ended: `shown` is
      the text on screen after each chunk and after the finish (the streamed
      text, then the stored article), `final` the `result` at the end. */
  method StreamScenario() returns (shown: seq<string>, final: ArticleResult)
    ensures shown == ["Hello", "Hello world", "Hello world!", "Hello world!"]
    ensures final == ArticleResult("Hello world!", "header.png", "footer.png")
  {
    var page := StartedPage("topic");
    page.OnChunk("Hello");
    var s1 := page.DisplayedText();
    assert s1 == "Hello";
    page.OnChunk("Hello world");
    var s2 := page.DisplayedText();
    assert s2 == "Hello world";
    page.OnChunk("Hello world!");
    var s3 := page.DisplayedText();
    assert s3 == "Hello world!";
    page.OnFinish("Hello world!");
    var s4 := page.DisplayedText();
    assert s4 == "Hello world!";
    shown := [s1, s2, s3, s4];
    page.ImagesFetched(Some("header.png"), Some("footer.png"));
    final := page.result;
  }
}
