/**
 * The YouTube URL validator `isYouTubeURL` (utils.js).
 *
 * The source tests its argument against the regular expression
 *   ^(https?:\/\/)?(www\.)?(youtube\.com|youtu\.be)\/.+
 * with JavaScript's `RegExp.prototype.test`. `Matches` below states the
 * language of that test declaratively (some split of the string into the
 * pattern's parts exists); `IsYouTubeUrl` is the validator itself, a greedy
 * left-to-right matcher that never backtracks, and its contract says it
 * accepts exactly the strings `Matches` describes.
 */
module YouTubeUrl {

  /** JavaScript's line terminators, which `.` without the `s` flag does not match. */
  predicate IsLineTerminator(c: char) {
    c == '\n' || c == '\r' || c == '\U{2028}' || c == '\U{2029}'
  }

  /** The strings matched by the group `(https?:\/\/)?`. */
  predicate IsSchemePart(t: string) {
    t == "" || t == "http://" || t == "https://"
  }

  /** The strings matched by the group `(www\.)?`. */
  predicate IsWwwPart(t: string) {
    t == "" || t == "www."
  }

  /** The strings matched by the group `(youtube\.com|youtu\.be)`. */
  predicate IsHost(t: string) {
    t == "youtube.com" || t == "youtu.be"
  }

  /**
   * `s` starts with a scheme part ending at `i`, a `www.` part ending at `j`
   * and a host ending at `k`, followed by a `/` at index `k`.
   */
  predicate PrefixAt(s: string, i: nat, j: nat, k: nat) {
    i <= j <= k < |s|
    && IsSchemePart(s[..i]) && IsWwwPart(s[i..j]) && IsHost(s[j..k]) && s[k] == '/'
  }

  /** As `PrefixAt`, and `.+` can match: a character other than a line terminator follows the `/`. */
  predicate MatchesAt(s: string, i: nat, j: nat, k: nat) {
    PrefixAt(s, i, j, k) && k + 1 < |s| && !IsLineTerminator(s[k + 1])
  }

  /**
   * The language of the source's test. The pattern is anchored by `^` and has
   * no `$`, so a match of some prefix of `s` starting at index 0 suffices,
   * and `.+` is satisfied by its first character alone.
   */
  ghost predicate Matches(s: string) {
    exists i: nat, j: nat, k: nat :: MatchesAt(s, i, j, k)
  }

  /** `lit` stands in `s` at index `at`. */
  predicate LiteralAt(s: string, at: nat, lit: string) {
    at + |lit| <= |s| && s[at..at + |lit|] == lit
  }

  /** A literal occurrence fixes the character at each of its offsets. */
  lemma LiteralAtChar(s: string, at: nat, lit: string, n: nat)
    requires n < |lit|
    ensures LiteralAt(s, at, lit) ==> s[at + n] == lit[n]
  {
    if LiteralAt(s, at, lit) {
      assert s[at..at + |lit|][n] == s[at + n];
    }
  }

  /** Where the greedy `(https?:\/\/)?` stops: it tries `https://`, then `http://`, then nothing. */
  function SchemeEnd(s: string): (i: nat)
    ensures i <= |s| && IsSchemePart(s[..i])
  {
    if LiteralAt(s, 0, "https://") then 8 else if LiteralAt(s, 0, "http://") then 7 else 0
  }

  /** Where the greedy `(www\.)?` stops when it starts at index `i`. */
  function WwwEnd(s: string, i: nat): (j: nat)
    requires i <= |s|
    ensures i <= j <= |s| && IsWwwPart(s[i..j])
  {
    if LiteralAt(s, i, "www.") then i + 4 else i
  }

  /** At index `j` of `s` stand `host`, a `/` and a character other than a line terminator. */
  predicate PathAfterHost(s: string, j: nat, host: string) {
    LiteralAt(s, j, host) && j + |host| + 1 < |s|
    && s[j + |host|] == '/' && !IsLineTerminator(s[j + |host| + 1])
  }

  /** The greedy scheme step stops after a scheme part followed by `w` or `y`: the three choices start differently. */
  lemma SchemeEndStops(s: string, i: nat)
    requires i < |s| && IsSchemePart(s[..i]) && (s[i] == 'w' || s[i] == 'y')
    ensures SchemeEnd(s) == i
  {
    if i == 0 {
      assert 8 <= |s| ==> s[..8][0] == s[0];
      assert 7 <= |s| ==> s[..7][0] == s[0];
    } else if i == 7 {
      assert s[..7] == "http://";
      assert 8 <= |s| ==> s[..8][4] == s[4] == s[..7][4];
    } else {
      assert s[..8] == "https://";
    }
  }

  /** The greedy `www.` step stops after a `www.` part followed by `y`. */
  lemma WwwEndStops(s: string, i: nat, j: nat)
    requires i <= j < |s| && IsWwwPart(s[i..j]) && s[j] == 'y'
    ensures WwwEnd(s, i) == j
  {
    if j == i {
      assert i + 4 <= |s| ==> s[i..i + 4][0] == s[i];
    } else {
      assert s[i..j] == "www.";
    }
  }

  /**
   * The pattern is unambiguous, so the greedy choices never need to be undone:
   * whatever split `PrefixAt` admits is the one the matcher takes.
   */
  lemma GreedyFindsSplit(s: string, i: nat, j: nat, k: nat)
    requires PrefixAt(s, i, j, k)
    ensures i == SchemeEnd(s) && j == WwwEnd(s, i)
    ensures LiteralAt(s, j, s[j..k])
  {
    // The part after a scheme starts with the `w` of `www.` or the `y` of the host.
    assert s[j] == s[j..k][0];
    assert i < j ==> s[i] == s[i..j][0];
    SchemeEndStops(s, i);
    WwwEndStops(s, i, j);
  }

  /** The split of a string into scheme, `www.`, host and `/` is unique when there is one. */
  lemma PrefixUnique(s: string, i: nat, j: nat, k: nat, i': nat, j': nat, k': nat)
    requires PrefixAt(s, i, j, k) && PrefixAt(s, i', j', k')
    ensures i == i' && j == j' && k == k'
  {
    GreedyFindsSplit(s, i, j, k);
    GreedyFindsSplit(s, i', j', k');
    // Were one host `youtube.com` and the other `youtu.be`, they would disagree at offset 5.
    assert s[j..k][5] == s[j + 5] == s[j..k'][5];
  }

  /** What the matcher finds after the greedy steps is a split in the sense of `MatchesAt`. */
  lemma PathAfterHostMatches(s: string, host: string)
    requires IsHost(host)
    requires PathAfterHost(s, WwwEnd(s, SchemeEnd(s)), host)
    ensures MatchesAt(s, SchemeEnd(s), WwwEnd(s, SchemeEnd(s)), WwwEnd(s, SchemeEnd(s)) + |host|)
  {
  }

  /** Any split of `s` is found by the matcher after its greedy steps. */
  lemma MatchesAtFound(s: string, i: nat, j: nat, k: nat)
    requires MatchesAt(s, i, j, k)
    ensures PathAfterHost(s, WwwEnd(s, SchemeEnd(s)), "youtube.com")
         || PathAfterHost(s, WwwEnd(s, SchemeEnd(s)), "youtu.be")
  {
    GreedyFindsSplit(s, i, j, k);
    assert PathAfterHost(s, j, s[j..k]);
  }

  /**
   * `isYouTubeURL(url)` (utils.js): the greedy matcher. It accepts exactly the
   * strings in the language of the source's regular expression.
   */
  function IsYouTubeUrl(url: string): (accepted: bool)
    ensures accepted <==> Matches(url)
  {
    var j := WwwEnd(url, SchemeEnd(url));
    var long := PathAfterHost(url, j, "youtube.com");
    var short := PathAfterHost(url, j, "youtu.be");
    assert long ==> Matches(url) by {
      if long { PathAfterHostMatches(url, "youtube.com"); }
    }
    assert short ==> Matches(url) by {
      if short { PathAfterHostMatches(url, "youtu.be"); }
    }
    assert Matches(url) ==> long || short by {
      if Matches(url) {
        var i': nat, j': nat, k': nat :| MatchesAt(url, i', j', k');
        MatchesAtFound(url, i', j', k');
      }
    }
    long || short
  }

  /**
   * Only the start is anchored (`^` without `$`): whatever follows an
   * accepted string, the result is still accepted.
   */
  lemma AcceptedExtends(s: string, t: string)
    requires IsYouTubeUrl(s)
    ensures IsYouTubeUrl(s + t)
  {
    var i: nat, j: nat, k: nat :| MatchesAt(s, i, j, k);
    MatchesAtExtends(s, t, i, j, k);
  }

  /** A split of `s` is still a split of `s + t`: it only looks at a prefix. */
  lemma MatchesAtExtends(s: string, t: string, i: nat, j: nat, k: nat)
    requires MatchesAt(s, i, j, k)
    ensures MatchesAt(s + t, i, j, k)
  {
    var st := s + t;
    assert st[..i] == s[..i];
    assert st[i..j] == s[i..j];
    assert st[j..k] == s[j..k];
  }

  /** Slicing `a + b + c + "/" + rest` at the parts' lengths gives the parts back. */
  lemma SplitOfParts(s: string, a: string, b: string, c: string, rest: string)
    requires s == a + b + c + "/" + rest
    ensures s[..|a|] == a && s[|a|..|a| + |b|] == b && s[|a| + |b|..|a| + |b| + |c|] == c
    ensures s[|a| + |b| + |c|] == '/'
    ensures rest != [] ==> s[|a| + |b| + |c| + 1] == rest[0]
  {
    assert s == a + (b + c + "/" + rest);
    assert s == (a + b) + (c + "/" + rest);
    assert s == (a + b + c) + ("/" + rest);
  }

  /** The obvious split of `scheme + www + host + "/" + rest` is a `PrefixAt` split. */
  lemma PartsPrefixAt(s: string, scheme: string, www: string, host: string, rest: string)
    requires IsSchemePart(scheme) && IsWwwPart(www) && IsHost(host)
    requires s == scheme + www + host + "/" + rest
    ensures PrefixAt(s, |scheme|, |scheme| + |www|, |scheme| + |www| + |host|)
    ensures rest != [] ==> s[|scheme| + |www| + |host| + 1] == rest[0]
  {
    SplitOfParts(s, scheme, www, host, rest);
  }

  /** Given a split of its prefix, a string is in the language exactly when a path character follows the `/`. */
  lemma PathCharDecidesMatch(s: string, i: nat, j: nat, k: nat)
    requires PrefixAt(s, i, j, k)
    ensures Matches(s) <==> MatchesAt(s, i, j, k)
  {
    if Matches(s) {
      var i': nat, j': nat, k': nat :| MatchesAt(s, i', j', k');
      PrefixUnique(s, i, j, k, i', j', k');
    }
  }

  /**
   * Once a scheme part, a `www.` part, a host and a `/` have been read, the
   * verdict rests on the next character alone: there must be one (`.+` is not
   * `.*`), and it must not be a line terminator. Anything after it is ignored,
   * so text after a newline cannot rescue `youtube.com/` followed by `\n`.
   */
  lemma PathCharDecides(scheme: string, www: string, host: string, rest: string)
    requires IsSchemePart(scheme) && IsWwwPart(www) && IsHost(host)
    ensures IsYouTubeUrl(scheme + www + host + "/" + rest)
        <==> rest != [] && !IsLineTerminator(rest[0])
  {
    var s := scheme + www + host + "/" + rest;
    PartsPrefixAt(s, scheme, www, host, rest);
    PathCharDecidesMatch(s, |scheme|, |scheme| + |www|, |scheme| + |www| + |host|);
  }

  /** Every accepted string starts with `h` (a scheme), `w` (`www.`) or `y` (a host). */
  lemma AcceptedFirstChar(s: string)
    requires IsYouTubeUrl(s)
    ensures s != [] && (s[0] == 'h' || s[0] == 'w' || s[0] == 'y')
  {
    var i: nat, j: nat, k: nat :| MatchesAt(s, i, j, k);
    if i > 0 {
      assert s[0] == s[..i][0];
    } else if j > 0 {
      assert s[0] == s[i..j][0];
    } else {
      assert s[0] == s[j..k][0];
    }
  }

  /** Slicing `a + b + c` at the parts' lengths gives the parts back. */
  lemma SplitOfThree(s: string, a: string, b: string, c: string)
    requires s == a + b + c
    ensures s[..|a|] == a && s[|a|..|a| + |b|] == b && s[|a| + |b|..] == c
  {
    assert s == a + (b + c);
  }

  /**
   * After a scheme part and a `www.` part, text that starts with `y` but is
   * neither host is refused: the matcher has no other place to look for one.
   */
  lemma NoHostRejected(s: string, i: nat, j: nat)
    requires i <= j < |s| && IsSchemePart(s[..i]) && IsWwwPart(s[i..j]) && s[j] == 'y'
    requires !LiteralAt(s[j..], 0, "youtube.com") && !LiteralAt(s[j..], 0, "youtu.be")
    ensures !IsYouTubeUrl(s)
  {
    assert j + 11 <= |s| ==> s[j..][..11] == s[j..j + 11];
    assert j + 8 <= |s| ==> s[j..][..8] == s[j..j + 8];
    assert i < j ==> s[i] == s[i..j][0];
    SchemeEndStops(s, i);
    WwwEndStops(s, i, j);
  }

  /**
   * The dots are literal: a host that differs from `youtube.com` or
   * `youtu.be` only where the dot belongs is refused, and so is `www`
   * followed by anything but a dot.
   */
  lemma LookalikeRejected(scheme: string, www: string, x: char, rest: string)
    requires IsSchemePart(scheme) && IsWwwPart(www) && x != '.'
    ensures !IsYouTubeUrl(scheme + www + ("youtube" + [x] + "com/" + rest))
    ensures !IsYouTubeUrl(scheme + www + ("youtu" + [x] + "be/" + rest))
    ensures !IsYouTubeUrl(scheme + ("www" + [x] + "youtube.com/" + rest))
  {
    LookalikeDotcomRejected(scheme, www, x, rest);
    LookalikeDotbeRejected(scheme, www, x, rest);
    LookalikeWwwRejected(scheme, x, rest);
  }

  /** `youtube` and `com` joined by anything but a dot is no host. */
  lemma LookalikeDotcomRejected(scheme: string, www: string, x: char, rest: string)
    requires IsSchemePart(scheme) && IsWwwPart(www) && x != '.'
    ensures !IsYouTubeUrl(scheme + www + ("youtube" + [x] + "com/" + rest))
  {
    var tail := "youtube" + [x] + "com/" + rest;
    assert tail[0] == 'y' && tail[6] == 'e' && tail[7] == x;
    assert 11 <= |tail| ==> tail[..11][7] == x;
    assert 8 <= |tail| ==> tail[..8][6] == 'e';
    StartsWithLookalike(scheme, www, tail);
  }

  /** `youtu` and `be` joined by anything but a dot is no host. */
  lemma LookalikeDotbeRejected(scheme: string, www: string, x: char, rest: string)
    requires IsSchemePart(scheme) && IsWwwPart(www) && x != '.'
    ensures !IsYouTubeUrl(scheme + www + ("youtu" + [x] + "be/" + rest))
  {
    var tail := "youtu" + [x] + "be/" + rest;
    assert tail[0] == 'y' && tail[5] == x && tail[6] == 'b';
    assert 11 <= |tail| ==> tail[..11][6] == 'b';
    assert 8 <= |tail| ==> tail[..8][5] == x;
    StartsWithLookalike(scheme, www, tail);
  }

  /** Helper for the look-alike lemmas: a scheme part, a `www.` part, then a `y` that starts no host. */
  lemma StartsWithLookalike(scheme: string, www: string, tail: string)
    requires IsSchemePart(scheme) && IsWwwPart(www) && tail != [] && tail[0] == 'y'
    requires !LiteralAt(tail, 0, "youtube.com") && !LiteralAt(tail, 0, "youtu.be")
    ensures !IsYouTubeUrl(scheme + www + tail)
  {
    var s := scheme + www + tail;
    SplitOfThree(s, scheme, www, tail);
    NoHostRejected(s, |scheme|, |scheme| + |www|);
  }

  /** `www` followed by anything but a dot is neither a `www.` part nor a host. */
  lemma LookalikeWwwRejected(scheme: string, x: char, rest: string)
    requires IsSchemePart(scheme) && x != '.'
    ensures !IsYouTubeUrl(scheme + ("www" + [x] + "youtube.com/" + rest))
  {
    var tail := "www" + [x] + "youtube.com/" + rest;
    assert tail[0] == 'w' && tail[3] == x;
    assert 4 <= |tail| ==> tail[..4][3] == x;
    WwwWithoutDotRejected(scheme, tail);
  }

  /** Helper for `LookalikeWwwRejected`: after a scheme part, a `w` that does not start `www.` starts no host either. */
  lemma WwwWithoutDotRejected(scheme: string, tail: string)
    requires IsSchemePart(scheme) && tail != [] && tail[0] == 'w' && !LiteralAt(tail, 0, "www.")
    ensures !IsYouTubeUrl(scheme + tail)
  {
    var s := scheme + tail;
    var i := |scheme|;
    SplitOfThree(s, scheme, "", tail);
    assert s[i] == tail[0];
    SchemeEndStops(s, i);
    assert WwwEnd(s, i) == i by {
      assert i + 4 <= |s| ==> s[i..i + 4] == tail[..4];
    }
    LiteralAtChar(s, i, "youtube.com", 0);
    LiteralAtChar(s, i, "youtu.be", 0);
    assert !PathAfterHost(s, WwwEnd(s, SchemeEnd(s)), "youtube.com");
    assert !PathAfterHost(s, WwwEnd(s, SchemeEnd(s)), "youtu.be");
  }

  /** The validator's verdicts on concrete inputs, stated against the language of the pattern. */
  lemma AcceptedScenarios()
    ensures Matches("https://youtu.be/abc123")
    ensures Matches("youtube.com/ \nabc")
  {
    AcceptsShortLink();
    assert "youtube.com/ \nabc" == "" + "" + "youtube.com" + "/" + " \nabc";
    PathCharDecides("", "", "youtube.com", " \nabc");
    assert IsYouTubeUrl("youtube.com/ \nabc");
  }

  /** A short link with a scheme and no `www.`. */
  lemma AcceptsShortLink()
    ensures IsYouTubeUrl("https://youtu.be/abc123")
  {
    assert "https://youtu.be/abc123" == "https://" + "" + "youtu.be" + "/" + "abc123";
    PathCharDecides("https://", "", "youtu.be", "abc123");
  }

  /** Inputs the validator refuses: no path character, a newline after the `/`, look-alike or other hosts. */
  lemma RejectedScenarios()
    ensures !Matches("https://www.youtube.com/")
    ensures !Matches("youtube.com/\nabc")
    ensures !Matches("youtubeXcom/abc")
    ensures !Matches("wwwXyoutube.com/abc")
    ensures !Matches("")
    ensures !Matches("not a url")
    ensures !Matches("m.youtube.com/abc")
    ensures !Matches("vimeo.com/abc")
  {
    RejectsBareSlash();
    RejectsNewlineAfterSlash();
    RejectsDotLookalike();
    RejectsWwwLookalike();
    RejectsByFirstChar("");
    RejectsByFirstChar("not a url");
    RejectsByFirstChar("m.youtube.com/abc");
    RejectsByFirstChar("vimeo.com/abc");
  }

  /** Nothing after the `/`: `.+` needs a character. */
  lemma RejectsBareSlash()
    ensures !IsYouTubeUrl("https://www.youtube.com/")
  {
    assert "https://www.youtube.com/" == "https://" + "www." + "youtube.com" + "/" + "";
    PathCharDecides("https://", "www.", "youtube.com", "");
  }

  /** A newline right after the `/`: `.` does not match it, and the text after it does not help. */
  lemma RejectsNewlineAfterSlash()
    ensures !IsYouTubeUrl("youtube.com/\nabc")
  {
    assert "youtube.com/\nabc" == "" + "" + "youtube.com" + "/" + "\nabc";
    PathCharDecides("", "", "youtube.com", "\nabc");
  }

  /** An `X` where the dot of `youtube.com` belongs. */
  lemma RejectsDotLookalike()
    ensures !IsYouTubeUrl("youtubeXcom/abc")
  {
    assert "youtubeXcom/abc" == "" + "" + ("youtube" + ['X'] + "com/" + "abc");
    LookalikeDotcomRejected("", "", 'X', "abc");
  }

  /** An `X` where the dot of `www.` belongs. */
  lemma RejectsWwwLookalike()
    ensures !IsYouTubeUrl("wwwXyoutube.com/abc")
  {
    assert "wwwXyoutube.com/abc" == "" + ("www" + ['X'] + "youtube.com/" + "abc");
    LookalikeWwwRejected("", 'X', "abc");
  }

  /** The empty string and strings that start with a letter other than `h`, `w` or `y`. */
  lemma RejectsByFirstChar(s: string)
    requires s == [] || (s[0] != 'h' && s[0] != 'w' && s[0] != 'y')
    ensures !IsYouTubeUrl(s)
  {
    if IsYouTubeUrl(s) {
      AcceptedFirstChar(s);
    }
  }
}
