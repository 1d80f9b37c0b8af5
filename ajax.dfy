/**
 * The client side of voting and marking (static/js/ajax.js): the cookie
 * reader that supplies the CSRF token, and the handlers that update the
 * page when the server answers. A JavaScript string is a `seq<char>`;
 * `decodeURIComponent` is the parameter `decode`.
 */
module Ajax {
  import opened Wrappers
  import opened Models
  import opened Views

  // ---- String built-ins ----

  /** The characters `String.prototype.trim` removes: WhiteSpace and LineTerminator. */
  predicate IsJsSpace(c: char)
  {
    c == '\t' || c == '\n' || c == '\U{0b}' || c == '\U{0c}' || c == '\r' || c == ' ' || c == '\U{a0}'
    || c == '\U{1680}' || ('\U{2000}' <= c <= '\U{200a}') || c == '\U{2028}' || c == '\U{2029}'
    || c == '\U{202f}' || c == '\U{205f}' || c == '\U{3000}' || c == '\U{feff}'
  }

  predicate AllJsSpace(s: string)
  {
    forall i :: 0 <= i < |s| ==> IsJsSpace(s[i])
  }

  /** `s` without its leading whitespace. */
  function TrimStart(s: string): (r: string)
    ensures |r| <= |s|
    ensures r == [] || !IsJsSpace(r[0])
    ensures AllJsSpace(s) ==> r == []
  {
    if s != [] && IsJsSpace(s[0]) then TrimStart(s[1..]) else s
  }

  /** `s` without its trailing whitespace. */
  function TrimEnd(s: string): (r: string)
    ensures |r| <= |s| && r == s[..|r|]
    ensures r == [] || !IsJsSpace(r[|r| - 1])
    ensures forall i :: |r| <= i < |s| ==> IsJsSpace(s[i])
  {
    if s != [] && IsJsSpace(s[|s| - 1]) then TrimEnd(s[..|s| - 1]) else s
  }

  /** `s.trim()`: the middle of `s` between its leading and its trailing whitespace. */
  function Trim(s: string): (r: string)
    ensures |r| <= |s|
    ensures r == [] || (!IsJsSpace(r[0]) && !IsJsSpace(r[|r| - 1]))
    ensures AllJsSpace(s) ==> r == []
  {
    TrimEnd(TrimStart(s))
  }

  lemma {:induction false} TrimStartOfPadded(p: string, w: string)
    requires AllJsSpace(p)
    requires w == [] || !IsJsSpace(w[0])
    ensures TrimStart(p + w) == w
  {
    if p != [] {
      assert (p + w)[1..] == p[1..] + w;
      TrimStartOfPadded(p[1..], w);
    } else {
      assert p + w == w;
    }
  }

  lemma {:induction false} TrimEndOfPadded(w: string, q: string)
    requires AllJsSpace(q)
    requires w == [] || !IsJsSpace(w[|w| - 1])
    ensures TrimEnd(w + q) == w
  {
    if q != [] {
      assert (w + q)[..|w + q| - 1] == w + q[..|q| - 1];
      TrimEndOfPadded(w, q[..|q| - 1]);
    } else {
      assert w + q == w;
    }
  }

  /** Whitespace around a pair is ignored: trimming a padded word gives the word back. */
  lemma TrimPadded(p: string, w: string, q: string)
    requires AllJsSpace(p) && AllJsSpace(q)
    requires w == [] || (!IsJsSpace(w[0]) && !IsJsSpace(w[|w| - 1]))
    ensures Trim(p + w + q) == w
  {
    if w == [] {
      assert AllJsSpace(p + w + q);
    } else {
      assert p + w + q == p + (w + q);
      TrimStartOfPadded(p, w + q);
      TrimEndOfPadded(w, q);
    }
  }

  /** `s.split(sep)` for a one-character separator: empty pieces are kept. */
  function SplitOn(s: string, sep: char): (r: seq<string>)
    ensures |r| >= 1
    ensures forall i :: 0 <= i < |r| ==> sep !in r[i]
  {
    if s == [] then [[]]
    else
      var rest := SplitOn(s[1..], sep);
      if s[0] == sep then [[]] + rest else [[s[0]] + rest[0]] + rest[1..]
  }

  /** `parts.join(sep)`. */
  function JoinOn(parts: seq<string>, sep: char): string
    requires |parts| >= 1
  {
    if |parts| == 1 then parts[0] else parts[0] + [sep] + JoinOn(parts[1..], sep)
  }

  /** Splitting loses nothing: joining the pieces with the separator restores the string. */
  lemma {:induction false} JoinSplitOn(s: string, sep: char)
    ensures JoinOn(SplitOn(s, sep), sep) == s
  {
    if s != [] {
      var rest := SplitOn(s[1..], sep);
      JoinSplitOn(s[1..], sep);
      if s[0] == sep {
        assert SplitOn(s, sep)[1..] == rest;
      } else {
        var r := SplitOn(s, sep);
        if |rest| == 1 {
          assert r == [[s[0]] + rest[0]];
        } else {
          assert r[1..] == rest[1..];
          assert JoinOn(rest, sep) == rest[0] + [sep] + JoinOn(rest[1..], sep);
        }
      }
    }
  }

  /** A first piece without the separator is split off whole. */
  lemma {:induction false} SplitOnConcat(a: string, sep: char, b: string)
    requires sep !in a
    ensures SplitOn(a + [sep] + b, sep) == [a] + SplitOn(b, sep)
  {
    if a == [] {
      assert a + [sep] + b == [sep] + b;
      assert ([sep] + b)[1..] == b;
    } else {
      assert (a + [sep] + b)[1..] == a[1..] + [sep] + b;
      SplitOnConcat(a[1..], sep, b);
      assert [a[0]] + a[1..] == a;
    }
  }

  /** `s.substring(start, end)`: both ends clamped to the string, and swapped when out of order. */
  function Substring(s: string, start: int, end: int): (r: string)
    ensures 0 <= start <= end <= |s| ==> r == s[start..end]
    ensures |r| <= |s|
  {
    var a := if start < 0 then 0 else if start > |s| then |s| else start;
    var b := if end < 0 then 0 else if end > |s| then |s| else end;
    if a <= b then s[a..b] else s[b..a]
  }

  // ---- getCookie ----

  /** `cookie.substring(0, name.length + 1) === name + '='`. */
  predicate Matches(cookie: string, name: string)
  {
    Substring(cookie, 0, |name| + 1) == name + "="
  }

  /** A pair matches exactly when `name=` stands at its very start. */
  lemma MatchesIsPrefix(cookie: string, name: string)
    ensures Matches(cookie, name) <==> |cookie| > |name| && cookie[..|name| + 1] == name + "="
  {
  }

  /** A cookie whose name only begins with `name` (such as `csrftoken2`) does not match. */
  lemma LongerNameNoMatch(name: string, c: char, rest: string)
    requires c != '='
    ensures !Matches(name + [c] + rest, name)
  {
    var cookie := name + [c] + rest;
    assert cookie[..|name| + 1][|name|] == c;
    assert (name + "=")[|name|] == '=';
  }

  /** The value of a matching pair: everything after `name=`. */
  function ValueAfter(cookie: string, name: string): string
  {
    Substring(cookie, |name| + 1, |cookie|)
  }

  /** Each `;`-separated piece, trimmed, as the loop of `getCookie` sees it. */
  function TrimAll(pieces: seq<string>): (r: seq<string>)
    ensures |r| == |pieces|
    ensures forall i :: 0 <= i < |r| ==> r[i] == Trim(pieces[i])
  {
    if pieces == [] then [] else [Trim(pieces[0])] + TrimAll(pieces[1..])
  }

  /** The index of the first trimmed pair that matches. */
  function FirstMatch(pairs: seq<string>, name: string): (r: Option<nat>)
    ensures r.Some? ==> r.value < |pairs| && Matches(pairs[r.value], name)
    ensures r.Some? ==> forall j :: 0 <= j < r.value ==> !Matches(pairs[j], name)
    ensures r.None? <==> forall j :: 0 <= j < |pairs| ==> !Matches(pairs[j], name)
  {
    if pairs == [] then None
    else if Matches(pairs[0], name) then Some(0)
    else match FirstMatch(pairs[1..], name)
      case None => None
      case Some(k) => Some(k + 1)
  }

  /** The first match is the one with no match before it. */
  lemma FirstMatchAt(pairs: seq<string>, name: string, i: nat)
    requires i < |pairs| && Matches(pairs[i], name)
    requires forall j :: 0 <= j < i ==> !Matches(pairs[j], name)
    ensures FirstMatch(pairs, name) == Some(i)
  {
    var r := FirstMatch(pairs, name);
    assert r.Some?;
    assert !(r.value < i);
    assert !(r.value > i);
  }

  /**
   * What `getCookie(name)` returns: nothing for an absent or empty cookie
   * string, otherwise the decoded value of the first pair that, once trimmed,
   * starts with `name=`; nothing when no pair does.
   */
  function CookieValue(cookie: Option<string>, name: string, decode: string -> string): (r: Option<string>)
    ensures cookie.None? || cookie.value == [] ==> r.None?
    ensures cookie.Some? && cookie.value != [] ==>
              var pieces := SplitOn(cookie.value, ';');
              match FirstMatch(TrimAll(pieces), name)
              case None => r.None?
              case Some(k) => r == Some(decode(ValueAfter(Trim(pieces[k]), name)))
  {
    if cookie.None? || cookie.value == [] then None
    else
      var pairs := TrimAll(SplitOn(cookie.value, ';'));
      match FirstMatch(pairs, name)
      case None => None
      case Some(k) => Some(decode(ValueAfter(pairs[k], name)))
  }

  /** The loop of `getCookie` goes on past a pair that does not match. */
  lemma NoMatchBeforeNext(pairs: seq<string>, name: string, i: nat)
    requires i < |pairs| && !Matches(pairs[i], name)
    requires forall j :: 0 <= j < i ==> !Matches(pairs[j], name)
    ensures forall j :: 0 <= j < i + 1 ==> !Matches(pairs[j], name)
  {
  }

  /** `getCookie`: the loop over the pairs stops at the first match. */
  method GetCookie(cookie: Option<string>, name: string, decode: string -> string) returns (r: Option<string>)
    ensures r == CookieValue(cookie, name, decode)
  {
    r := None;
    if cookie.Some? && cookie.value != [] {
      var cookies := SplitOn(cookie.value, ';');
      ghost var pairs := TrimAll(cookies);
      var i := 0;
      while i < |cookies|
        invariant 0 <= i <= |cookies|
        invariant forall j :: 0 <= j < i ==> !Matches(pairs[j], name)
        invariant r.None?
      {
        var c := Trim(cookies[i]);
        assert c == pairs[i];
        if Matches(c, name) {
          r := Some(decode(ValueAfter(c, name)));
          FirstMatchAt(pairs, name, i);
          return;
        }
        NoMatchBeforeNext(pairs, name, i);
        i := i + 1;
      }
    }
  }

  /** Trimming a leading piece and then the rest is trimming them all. */
  lemma TrimAllCons(first: string, tail: seq<string>)
    ensures TrimAll([first] + tail) == [Trim(first)] + TrimAll(tail)
  {
    assert ([first] + tail)[1..] == tail;
  }

  /** Once a pair matches, the pairs after it are never read. */
  lemma LaterPairsIgnored(first: string, rest: string, name: string, decode: string -> string)
    requires ';' !in first
    requires Matches(Trim(first), name)
    ensures CookieValue(Some(first + ";" + rest), name, decode) == Some(decode(ValueAfter(Trim(first), name)))
  {
    SplitOnConcat(first, ';', rest);
    assert first + ";" + rest == first + [';'] + rest;
    TrimAllCons(first, SplitOn(rest, ';'));
  }

  lemma FirstMatchSkip(first: string, tail: seq<string>, name: string)
    requires !Matches(first, name)
    ensures FirstMatch([first] + tail, name) == match FirstMatch(tail, name) case None => None case Some(k) => Some(k + 1)
  {
    assert ([first] + tail)[1..] == tail;
  }

  /** A pair that does not match is skipped, and the search goes on in the rest. */
  lemma NonMatchingPairSkipped(first: string, rest: string, name: string, decode: string -> string)
    requires ';' !in first
    requires !Matches(Trim(first), name)
    requires rest != []
    ensures CookieValue(Some(first + ";" + rest), name, decode) == CookieValue(Some(rest), name, decode)
  {
    SplitOnConcat(first, ';', rest);
    assert first + ";" + rest == first + [';'] + rest;
    TrimAllCons(first, SplitOn(rest, ';'));
    FirstMatchSkip(Trim(first), TrimAll(SplitOn(rest, ';')), name);
  }

  // ---- vote handlers ----

  /** The parsed JSON of a vote reply; `None` stands for a missing (`undefined`) member. */
  datatype VoteReply = VoteReply(newRating: Option<int>, userVote: Option<int>)

  /** The widget of one rating: the number shown and the two buttons' `disabled` properties. */
  datatype RateState = RateState(shown: int, likeDisabled: bool, dislikeDisabled: bool)

  /**
   * The vote success handler: without `new_rating` nothing changes;
   * otherwise the number shown becomes the new rating and the button of the
   * value cast is disabled, the other enabled (a value other than 1 or -1
   * leaves both buttons as they were).
   */
  function AfterVote(w: RateState, reply: VoteReply): (r: RateState)
    ensures reply.newRating.None? ==> r == w
    ensures reply.newRating.Some? ==> r.shown == reply.newRating.value
    ensures reply.newRating.Some? && reply.userVote == Some(1) ==> r.likeDisabled && !r.dislikeDisabled
    ensures reply.newRating.Some? && reply.userVote == Some(-1) ==> !r.likeDisabled && r.dislikeDisabled
    ensures reply.userVote != Some(1) && reply.userVote != Some(-1) ==>
              r.likeDisabled == w.likeDisabled && r.dislikeDisabled == w.dislikeDisabled
  {
    match reply.newRating
    case None => w
    case Some(n) =>
      if reply.userVote == Some(1) then RateState(n, true, false)
      else if reply.userVote == Some(-1) then RateState(n, false, true)
      else w.(shown := n)
  }

  /** The rating widget on the page. */
  class RateWidget {
    var shown: int
    var likeDisabled: bool
    var dislikeDisabled: bool

    function State(): RateState
      reads this
    {
      RateState(shown, likeDisabled, dislikeDisabled)
    }

    constructor (shown: int)
      ensures State() == RateState(shown, false, false)
    {
      this.shown := shown;
      likeDisabled := false;
      dislikeDisabled := false;
    }

    /** The `success` callback of the vote request. */
    method OnVoteSuccess(reply: VoteReply)
      modifies this
      ensures State() == AfterVote(old(State()), reply)
    {
      if reply.newRating.Some? {
        shown := reply.newRating.value;
        if reply.userVote == Some(1) {
          likeDisabled := true;
          dislikeDisabled := false;
        } else if reply.userVote == Some(-1) {
          likeDisabled := false;
          dislikeDisabled := true;
        }
      }
    }
  }

  /** The JSON the server sends for a successful vote, as the page reads it. */
  function ReplyOf(v: VoteResponse): VoteReply
  {
    VoteReply(Some(v.newRating), Some(v.userVote))
  }

  /**
   * Whatever the widget showed, a reply of the `vote` view leaves it showing
   * the server's rating with exactly the button of the value cast disabled.
   */
  lemma ServerVoteDisablesCastButton(w: RateState, profiles: seq<Profile>, questions: seq<Question>, answers: seq<Answer>,
                                     actor: Option<Id>, dataId: Option<string>, voteType: Option<string>, objType: Option<string>)
    requires ResolveVote(actor, profiles, questions, answers, dataId, voteType, objType).Ok?
    ensures var b := ResolveVote(actor, profiles, questions, answers, dataId, voteType, objType).value;
            var r := AfterVote(w, ReplyOf(VoteResponse(0, b.value)));
            r.likeDisabled == (voteType == Some("like")) && r.dislikeDisabled == (voteType != Some("like"))
  {
  }

  /** The page's reaction to a failed vote request: a login redirect on 401 or 403, a console message otherwise. */
  function VoteErrorRedirects(status: int): (r: bool)
    ensures r ==> 400 <= status < 500
    ensures status == 403 ==> r
  {
    status == 401 || status == 403
  }

  /** The HTTP status of each way a server request can fail. */
  function StatusOf(e: Error): (r: int)
    ensures 200 <= r < 600
    ensures r >= 400 <==> !(e == LoginRequired || e == FormInvalid)
    ensures r == 403 <==> e == AccessDenied
  {
    match e
    case LoginRequired => 302
    case WrongObjectType => 400
    case NotFound => 404
    case AccessDenied => 403
    case FormInvalid => 200
    case ServerError => 500
  }

  /**
   * None of the replies `vote` itself can fail with triggers the login
   * redirect: an anonymous voter gets a 302 to the login page, which the
   * request follows, and the other errors are 400, 404 and 500.
   */
  lemma VoteErrorsNeverRedirect(profiles: seq<Profile>, questions: seq<Question>, answers: seq<Answer>,
                                actor: Option<Id>, dataId: Option<string>, voteType: Option<string>, objType: Option<string>)
    requires ResolveVote(actor, profiles, questions, answers, dataId, voteType, objType).Err?
    ensures !VoteErrorRedirects(StatusOf(ResolveVote(actor, profiles, questions, answers, dataId, voteType, objType).error))
  {
  }

  // ---- correct-answer checkbox handlers ----

  /** The parsed JSON of a `mark_correct` reply. */
  datatype CorrectReply = CorrectReply(status: string, isCorrect: bool)

  /** The browser toggles a checkbox the user clicks before the `change` handler runs. */
  function Click(boxes: seq<bool>, i: nat): (r: seq<bool>)
    requires i < |boxes|
    ensures |r| == |boxes| && r[i] == !boxes[i]
    ensures forall j :: 0 <= j < |r| && j != i ==> r[j] == boxes[j]
  {
    boxes[i := !boxes[i]]
  }

  /**
   * The success callback: when the server reports the answer now correct,
   * every other `.js-correct` checkbox is unchecked; any other reply changes nothing.
   */
  function AfterCorrectSuccess(boxes: seq<bool>, clicked: nat, reply: CorrectReply): (r: seq<bool>)
    requires clicked < |boxes|
    ensures |r| == |boxes| && r[clicked] == boxes[clicked]
    ensures reply.status == "ok" && reply.isCorrect ==> forall j :: 0 <= j < |r| && j != clicked ==> !r[j]
    ensures !(reply.status == "ok" && reply.isCorrect) ==> r == boxes
  {
    if reply.status == "ok" && reply.isCorrect then seq(|boxes|, j requires 0 <= j < |boxes| => j == clicked && boxes[j])
    else boxes
  }

  /** The error callback: the clicked checkbox is flipped back, the same flip the click made. */
  function AfterCorrectError(boxes: seq<bool>, clicked: nat): (r: seq<bool>)
    requires clicked < |boxes|
    ensures |r| == |boxes| && r[clicked] == !boxes[clicked]
    ensures forall j :: 0 <= j < |r| && j != clicked ==> r[j] == boxes[j]
  {
    Click(boxes, clicked)
  }

  /** A failed request leaves the checkboxes as they were before the click. */
  lemma ErrorUndoesClick(boxes: seq<bool>, i: nat)
    requires i < |boxes|
    ensures AfterCorrectError(Click(boxes, i), i) == boxes
  {
  }

  /** Marking an unchecked answer and hearing back "correct" leaves exactly that checkbox checked. */
  lemma MarkLeavesOneChecked(boxes: seq<bool>, i: nat)
    requires i < |boxes| && !boxes[i]
    ensures var r := AfterCorrectSuccess(Click(boxes, i), i, CorrectReply("ok", true));
            forall j :: 0 <= j < |r| ==> r[j] == (j == i)
  {
  }

  /** Unchecking a correct answer and hearing back "not correct" leaves the other checkboxes alone. */
  lemma UnmarkKeepsOthers(boxes: seq<bool>, i: nat)
    requires i < |boxes| && boxes[i]
    ensures AfterCorrectSuccess(Click(boxes, i), i, CorrectReply("ok", false)) == Click(boxes, i)
  {
  }

  /** The `success` callback of the mark request, over the page's checkboxes. */
  method OnCorrectSuccess(boxes: array<bool>, clicked: nat, reply: CorrectReply)
    requires clicked < boxes.Length
    modifies boxes
    ensures boxes[..] == AfterCorrectSuccess(old(boxes[..]), clicked, reply)
  {
    if reply.status == "ok" && reply.isCorrect {
      for j := 0 to boxes.Length
        invariant forall k :: 0 <= k < j ==> boxes[k] == (k == clicked && old(boxes[k]))
        invariant forall k :: j <= k < boxes.Length ==> boxes[k] == old(boxes[k])
      {
        if j != clicked {
          boxes[j] := false;
        }
      }
    }
  }

  /** The `error` callback of the mark request. */
  method OnCorrectError(boxes: array<bool>, clicked: nat)
    requires clicked < boxes.Length
    modifies boxes
    ensures boxes[..] == AfterCorrectError(old(boxes[..]), clicked)
  {
    boxes[clicked] := !boxes[clicked];
  }
}
