/** The two string helpers of the application: an e-mail shape check and the
    initials of a name. */
module Helpers {
  import opened Wrappers
  import opened Text

  /** A character of the class `[^\s@]`. */
  predicate EmailChar(c: char) {
    !IsWhitespace(c) && c != '@'
  }

  /** Every character of `s` belongs to `[^\s@]`. */
  predicate AllEmailChars(s: string) {
    forall k :: 0 <= k < |s| ==> EmailChar(s[k])
  }

  /** The part after the '@': `[^\s@]+\.[^\s@]+`, that is, only `[^\s@]` characters
      and a '.' that is neither the first nor the last character. */
  predicate DomainPart(d: string) {
    AllEmailChars(d) && exists j :: 0 < j < |d| - 1 && d[j] == '.'
  }

  /** The strings the pattern of `validateEmail` (helper.js line 2) matches from
      start to end: a non-empty local part of characters that are neither
      whitespace nor '@', then an '@', then a domain part of such characters with a
      dot that has at least one character on each side. Such a string holds an '@'
      and is at least five characters long. */
  ghost predicate EmailShape(s: string): (shape: bool)
    ensures shape ==> '@' in s && |s| >= 5
  {
    var shape := exists i :: 0 <= i < |s| && s[i] == '@' && s[..i] != [] && AllEmailChars(s[..i]) && DomainPart(s[i + 1..]);
    assert shape ==> |s| >= 5 by {
      if shape {
        var i :| 0 <= i < |s| && s[i] == '@' && s[..i] != [] && AllEmailChars(s[..i]) && DomainPart(s[i + 1..]);
        assert |s[i + 1..]| >= 3;
      }
    }
    shape
  }

  /** When the first `j` characters are all of `[^\s@]`, none of them is an '@'. */
  lemma NoAtBefore(s: string, j: nat)
    requires j <= |s| && AllEmailChars(s[..j])
    ensures forall k :: 0 <= k < j ==> s[k] != '@'
  {
    forall k | 0 <= k < j
      ensures s[k] != '@'
    {
      assert s[..j][k] == s[k];
    }
  }

  /** `validateEmail`: the local part can hold no '@', so the first '@' is the only
      candidate for the separator. */
  function ValidateEmail(email: string): (ok: bool)
    ensures ok <==> EmailShape(email)
  {
    match IndexOf(email, '@')
    case None => false
    case Some(i) =>
      var ok := i > 0 && AllEmailChars(email[..i]) && DomainPart(email[i + 1..]);
      assert EmailShape(email) ==> ok by {
        if EmailShape(email) {
          var j :| 0 <= j < |email| && email[j] == '@' && email[..j] != [] && AllEmailChars(email[..j]) && DomainPart(email[j + 1..]);
          NoAtBefore(email, j);
          assert i == j;
        }
      }
      ok
  }

  /** The regular expression read as a concatenation: `local + "@" + domain` is
      accepted exactly when `local` is a non-empty run of `[^\s@]` and `domain` is a
      domain part. */
  lemma ValidateEmailParts(local: string, domain: string)
    ensures ValidateEmail(local + "@" + domain) <==>
      (local != [] && AllEmailChars(local) && DomainPart(domain))
  {
    var s := local + "@" + domain;
    var i := |local|;
    assert s[i] == '@' && s[..i] == local && s[i + 1..] == domain;
    var first := IndexOf(s, '@').value;
    if first < i {
      // the local part holds an '@', and then the text after the first '@' holds one too
      assert local[first] == '@' && !EmailChar(local[first]);
      assert s[first + 1..][i - first - 1] == '@';
      assert !EmailChar(s[first + 1..][i - first - 1]);
    }
  }

  /** A run of `[^\s@]` characters holds no '@'. */
  lemma NoAtIn(x: string)
    requires AllEmailChars(x)
    ensures multiset(x)['@'] == 0
  {
    assert forall k :: 0 <= k < |x| ==> x[k] != '@';
    assert '@' !in x;
  }

  /** An accepted address holds exactly one '@' and no whitespace. */
  lemma AcceptedHasOneAtAndNoWhitespace(s: string)
    requires ValidateEmail(s)
    ensures multiset(s)['@'] == 1
    ensures forall k :: 0 <= k < |s| ==> !IsWhitespace(s[k])
  {
    var i := IndexOf(s, '@').value;
    var local, domain := s[..i], s[i + 1..];
    assert s[i] == '@';
    assert AllEmailChars(local) && AllEmailChars(domain);
    assert s == local + "@" + domain;
    NoAtIn(local);
    NoAtIn(domain);
    assert multiset(s) == multiset(local) + multiset{'@'} + multiset(domain);
    NoWhitespaceIn(local, domain);
  }

  /** A local part and a domain of `[^\s@]` characters, joined by '@', hold no
      whitespace. */
  lemma NoWhitespaceIn(local: string, domain: string)
    requires AllEmailChars(local) && AllEmailChars(domain)
    ensures forall k :: 0 <= k < |local + "@" + domain| ==> !IsWhitespace((local + "@" + domain)[k])
  {
    var s := local + "@" + domain;
    forall k | 0 <= k < |s|
      ensures !IsWhitespace(s[k])
    {
      if k < |local| {
        assert s[k] == local[k];
      } else if k > |local| {
        assert s[k] == domain[k - |local| - 1];
      }
    }
  }

  /** The empty string, and every string without '@', is rejected. */
  lemma RejectsWithoutAt(s: string)
    requires '@' !in s
    ensures !ValidateEmail(s)
  {
  }

  /** `getInitials`: an absent or empty name has no initials; otherwise the name is
      split on ' ' and each word contributes its upper-cased first character. The
      source reads `word[0]` of every word, which fails on an empty word, so the name
      may have no leading, trailing or doubled space. */
  function GetInitials(name: Option<string>): (initials: string)
    requires name.Some? && name.value != "" ==> NoStrayCharacter(name.value, ' ')
    ensures name == None || name == Some("") ==> initials == ""
    ensures name.Some? && name.value != "" ==>
      var words := Split(name.value, ' ');
      |initials| == |words| &&
      forall k :: 0 <= k < |words| ==> words[k] != "" && initials[k] == ToUpper(words[k][0])
  {
    if name.None? || name.value == "" then ""
    else
      var words := Split(name.value, ' ');
      SplitNoEmptyPiece(name.value, ' ');
      var letters := seq(|words|, k requires 0 <= k < |words| => [ToUpper(words[k][0])]);
      JoinSingletons(letters);
      Join(letters, "")
  }
}
