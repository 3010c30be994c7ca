/** The pure parts of the comments panel script: HTML escaping, the
    avatar's fallback letter, the defaults a comment from the server is
    shown with, the empty-list placeholder, and the checks a new comment
    passes before it is sent. JavaScript values are the `JsVal` datatype;
    numbers are integers. */
module CommentsView {
  import opened Common
  import opened Text

  /** `escapeHtml` on one character. */
  function EscapeChar(c: char): string
  {
    if c == '&' then "&amp;"
    else if c == '<' then "&lt;"
    else if c == '>' then "&gt;"
    else if c == '"' then "&quot;"
    else if c == '\'' then "&#39;"
    else [c]
  }

  /** The five characters `escapeHtml` replaces. */
  predicate Special(c: char)
  {
    c == '&' || c == '<' || c == '>' || c == '"' || c == '\''
  }

  /** `escapeHtml`: every special character replaced by its entity. */
  function EscapeHtml(s: string): string
  {
    if s == [] then [] else EscapeChar(s[0]) + EscapeHtml(s[1..])
  }

  /** Escaping a concatenation escapes each part. */
  lemma {:induction false} EscapeConcat(a: string, b: string)
    ensures EscapeHtml(a + b) == EscapeHtml(a) + EscapeHtml(b)
  {
    if a == [] {
      assert a + b == b;
    } else {
      assert (a + b)[0] == a[0];
      assert (a + b)[1..] == a[1..] + b;
      EscapeConcat(a[1..], b);
      assert EscapeHtml(a + b) == EscapeChar(a[0]) + (EscapeHtml(a[1..]) + EscapeHtml(b));
    }
  }

  /** A string without special characters is its own escape. */
  lemma {:induction false} EscapeClean(s: string)
    requires forall i :: 0 <= i < |s| ==> !Special(s[i])
    ensures EscapeHtml(s) == s
  {
    if s != [] {
      EscapeClean(s[1..]);
      assert s == [s[0]] + s[1..];
    }
  }

  /** An escaped string holds no raw `<`, `>`, `"` or `'`. */
  lemma {:induction false} EscapeNoRaw(s: string)
    ensures forall i :: 0 <= i < |EscapeHtml(s)| ==>
              EscapeHtml(s)[i] != '<' && EscapeHtml(s)[i] != '>'
              && EscapeHtml(s)[i] != '"' && EscapeHtml(s)[i] != '\''
  {
    if s != [] {
      EscapeNoRaw(s[1..]);
      var e, r := EscapeChar(s[0]), EscapeHtml(s[1..]);
      assert forall i :: 0 <= i < |e| ==> e[i] != '<' && e[i] != '>' && e[i] != '"' && e[i] != '\'';
      assert forall i :: |e| <= i < |e + r| ==> (e + r)[i] == r[i - |e|];
    }
  }

  /** The entity `s` starts with, as the character it stands for and its
      length. */
  function EntityAt(s: string): (r: Option<(char, nat)>)
    ensures r.Some? ==> 4 <= r.value.1 <= |s|
  {
    if "&amp;" <= s then Some(('&', 5))
    else if "&lt;" <= s then Some(('<', 4))
    else if "&gt;" <= s then Some(('>', 4))
    else if "&quot;" <= s then Some(('"', 6))
    else if "&#39;" <= s then Some(('\'', 5))
    else None
  }

  /** Reading entities back: the inverse of `escapeHtml`. */
  function Unescape(s: string): string
    decreases |s|
  {
    if s == [] then []
    else
      match EntityAt(s)
      case Some((c, n)) => [c] + Unescape(s[n..])
      case None => [s[0]] + Unescape(s[1..])
  }

  /** The escape of a character starts with the entity for it, and that of
      a plain character with no entity. */
  lemma EntityOfEscape(c: char, rest: string)
    ensures EntityAt(EscapeChar(c) + rest) == if Special(c) then Some((c, |EscapeChar(c)|)) else None
  {
    var s := EscapeChar(c) + rest;
    if c == '&' {
      assert s[..5] == "&amp;";
    } else if c == '<' {
      assert s[1] == 'l' && s[..4] == "&lt;";
    } else if c == '>' {
      assert s[1] == 'g' && s[..4] == "&gt;";
    } else if c == '"' {
      assert s[1] == 'q' && s[..6] == "&quot;";
    } else if c == '\'' {
      assert s[1] == '#' && s[..5] == "&#39;";
    } else {
      assert s[0] == c;
    }
  }

  /** Reading back one escaped character and then the rest. */
  lemma UnescapeStep(c: char, rest: string)
    ensures Unescape(EscapeChar(c) + rest) == [c] + Unescape(rest)
  {
    var s := EscapeChar(c) + rest;
    EntityOfEscape(c, rest);
    assert s[|EscapeChar(c)|..] == rest;
  }

  /** Escaping loses nothing: the entities read back as the text. */
  lemma {:induction false} UnescapeEscape(s: string)
    ensures Unescape(EscapeHtml(s)) == s
  {
    if s != [] {
      UnescapeStep(s[0], EscapeHtml(s[1..]));
      UnescapeEscape(s[1..]);
      assert s == [s[0]] + s[1..];
    }
  }

  /** A JavaScript value as the script meets it in a comment. */
  datatype JsVal = Undefined | Null | JsBool(b: bool) | JsNum(n: int) | JsStr(s: string)

  /** JavaScript truthiness. */
  predicate Truthy(v: JsVal)
  {
    match v
    case Undefined => false
    case Null => false
    case JsBool(b) => b
    case JsNum(n) => n != 0
    case JsStr(s) => s != ""
  }

  /** `a || b`. */
  function Or(a: JsVal, b: JsVal): (r: JsVal)
    ensures Truthy(a) ==> r == a
    ensures !Truthy(a) ==> r == b
  {
    if Truthy(a) then a else b
  }

  /** The fields of a comment from the server that the script reads. */
  datatype CommentJson = CommentJson(author: JsVal, text: JsVal, commentString: JsVal, likes: JsVal)

  /** A comment as `buildCommentHTML` shows it. */
  datatype CommentView = CommentView(author: JsVal, text: JsVal, likes: int)

  /** The defaults of `buildCommentHTML`: "Anonymous" for a missing author,
      the text or else the comment string or else nothing, and no likes
      unless the count is a number. */
  function Defaults(c: CommentJson): (v: CommentView)
    ensures Truthy(v.author)
    ensures Truthy(c.author) ==> v.author == c.author
    ensures !Truthy(c.author) ==> v.author == JsStr("Anonymous")
    ensures Truthy(c.text) ==> v.text == c.text
    ensures !Truthy(c.text) && Truthy(c.commentString) ==> v.text == c.commentString
    ensures !Truthy(c.text) && !Truthy(c.commentString) ==> v.text == JsStr("")
    ensures c.likes.JsNum? ==> v.likes == c.likes.n
    ensures !c.likes.JsNum? ==> v.likes == 0
  {
    CommentView(Or(c.author, JsStr("Anonymous")),
                Or(Or(c.text, c.commentString), JsStr("")),
                if c.likes.JsNum? then c.likes.n else 0)
  }

  /** A comment shown once, sent back as it was shown, is shown the same. */
  lemma DefaultsIdempotent(c: CommentJson)
    ensures var v := Defaults(c);
            Defaults(CommentJson(v.author, v.text, Undefined, JsNum(v.likes))) == v
  {
  }

  /** The avatar's fallback letter: the first character of the name, upper
      cased, or "?" for an empty name. */
  function AvatarLetter(username: string): (c: char)
    ensures username == "" ==> c == '?'
    ensures username != "" ==> LowerChar(c) == LowerChar(username[0]) && !('a' <= c <= 'z')
  {
    UpperChar(if username == "" then '?' else username[0])
  }

  /** The author of a shown comment is never empty, so a string author
      gets the upper-cased first letter of its name as its avatar. */
  lemma AvatarOfShownAuthor(c: CommentJson)
    requires Defaults(c).author.JsStr?
    ensures Defaults(c).author.s != ""
    ensures AvatarLetter(Defaults(c).author.s) == UpperChar(Defaults(c).author.s[0])
  {
  }

  /** What the comment list shows: the placeholder, or one item per
      comment. */
  datatype Listing = Placeholder(message: string) | Items(views: seq<CommentView>)

  /** The default message of `renderEmpty`. */
  const NoComments: string := "No comments."

  /** `renderEmpty`: the placeholder with the message escaped. */
  function RenderEmpty(message: string): (r: Listing)
    ensures r.Placeholder? && Unescape(r.message) == message
  {
    UnescapeEscape(message);
    Placeholder(EscapeHtml(message))
  }

  /** `comments.map(buildCommentHTML)`: each comment shown with its
      defaults, in order. */
  function ShowAll(cs: seq<CommentJson>): (views: seq<CommentView>)
    ensures |views| == |cs| && forall i :: 0 <= i < |cs| ==> views[i] == Defaults(cs[i])
  {
    if cs == [] then []
    else
      var rest := ShowAll(cs[1..]);
      assert forall i :: 1 <= i < |cs| ==> cs[i] == cs[1..][i - 1];
      [Defaults(cs[0])] + rest
  }

  /** `renderComments`: the placeholder with the default message for no
      comments, one item per comment otherwise. */
  function RenderComments(cs: seq<CommentJson>): (r: Listing)
    ensures r.Placeholder? <==> cs == []
    ensures r.Items? ==> r.views == ShowAll(cs)
  {
    if |cs| == 0 then RenderEmpty(NoComments) else Items(ShowAll(cs))
  }

  /** The placeholder reads "No comments." as it is. */
  lemma EmptyListPlaceholder()
    ensures RenderComments([]) == Placeholder("No comments.")
  {
    var s := NoComments;
    assert forall i :: 0 <= i < |s| ==> !Special(s[i]);
    EscapeClean(s);
  }

  /** The length JavaScript gives a string: one unit per character of the
      basic plane, two for the others. */
  function Utf16Length(s: string): (n: nat)
    ensures |s| <= n <= 2 * |s|
  {
    if s == [] then 0 else (if s[0] as int > 0xFFFF then 2 else 1) + Utf16Length(s[1..])
  }

  /** The status line the script sets. */
  datatype Status = Status(message: string, kind: string)

  /** What a submit does: show a status and stop, or send the text. */
  datatype Submission = Refused(status: Status) | Send(text: string)

  /** The checks of the submit handler: a post must be selected, and the
      trimmed text must be neither empty nor over 500 units long. */
  function Submit(currentPostId: Option<string>, value: Option<string>): (r: Submission)
    ensures currentPostId.None? || currentPostId.value == "" ==>
              r == Refused(Status("Select a post first", "warn"))
    ensures currentPostId.Some? && currentPostId.value != "" ==>
              var t := Trim(if value.Some? then value.value else "", IsJsSpace);
              (t == "" ==> r == Refused(Status("Cannot post empty comment", "error")))
              && (t != "" && Utf16Length(t) > 500 ==> r == Refused(Status("Too long (500 max)", "error")))
              && (t != "" && Utf16Length(t) <= 500 ==> r == Send(t))
  {
    if currentPostId.None? || currentPostId.value == "" then Refused(Status("Select a post first", "warn"))
    else
      var text := Trim(if value.Some? then value.value else "", IsJsSpace);
      if text == "" then Refused(Status("Cannot post empty comment", "error"))
      else if Utf16Length(text) > 500 then Refused(Status("Too long (500 max)", "error"))
      else Send(text)
  }

  /** A sent text is non-empty, at most 500 characters, and has no
      whitespace at either end; sending it again sends it unchanged. */
  lemma SentTextClean(currentPostId: Option<string>, value: Option<string>)
    requires Submit(currentPostId, value).Send?
    ensures var t := Submit(currentPostId, value).text;
            1 <= |t| <= 500 && !IsJsSpace(t[0]) && !IsJsSpace(t[|t| - 1])
            && Submit(currentPostId, Some(t)) == Send(t)
  {
    var t := Submit(currentPostId, value).text;
    TrimmedEnds(if value.Some? then value.value else "", IsJsSpace);
    TrimUnchanged(t, IsJsSpace);
  }
}
