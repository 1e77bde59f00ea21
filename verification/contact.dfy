/**
 * Client-side validation of the contact form (name, email, message) that
 * runs before the form is posted.
 */
module Contact {
  import opened Collections
  import opened Text

  /** The three failures the form reports, in the order it checks them. */
  datatype ContactError = NameTooShort | InvalidEmail | MessageTooShort

  /** The text the form shows for each failure. */
  function Message(e: ContactError): string
  {
    match e
    case NameTooShort => "Name must be at least 2 characters."
    case InvalidEmail => "Enter a valid email."
    case MessageTooShort => "Message must be at least 10 characters."
  }

  /** Different failures show different texts, so the status line names each failure it reports. */
  lemma MessageInjective(e1: ContactError, e2: ContactError)
    ensures Message(e1) == Message(e2) ==> e1 == e2
  {
    assert Message(NameTooShort)[0] == 'N';
    assert Message(InvalidEmail)[0] == 'E';
    assert Message(MessageTooShort)[0] == 'M';
  }

  /** Position of each check in the handler. */
  function Rank(e: ContactError): nat
  {
    match e
    case NameTooShort => 0
    case InvalidEmail => 1
    case MessageTooShort => 2
  }

  /** The character class `[^\s@]`. */
  predicate PlainChar(c: char)
  {
    !IsSpace(c) && c != '@'
  }

  /** `[^\s@]*` matches all of `s`. */
  ghost predicate AllPlain(s: string)
  {
    forall k :: 0 <= k < |s| ==> PlainChar(s[k])
  }

  /**
   * `s` reads as local `@` domain `.` suffix at the `@` in position `i` and
   * the `.` in position `j`, each of the three parts non-empty and made of
   * `[^\s@]` characters.
   */
  ghost predicate EmailParts(s: string, i: int, j: int)
  {
    && 0 < i && i + 1 < j < |s| - 1
    && s[i] == '@' && s[j] == '.'
    && AllPlain(s[..i]) && AllPlain(s[i + 1..j]) && AllPlain(s[j + 1..])
  }

  /** The pattern `^[^\s@]+@[^\s@]+\.[^\s@]+$`, read as its regular expression defines it. */
  ghost predicate MatchesEmailPattern(s: string)
  {
    exists i, j :: EmailParts(s, i, j)
  }

  /**
   * A direct check of the pattern: no whitespace, exactly one `@` with
   * something before it, and a `.` after it that leaves at least one
   * character on each side.
   */
  function IsEmailAddress(s: string): (ok: bool)
    ensures ok <==> MatchesEmailPattern(s)
  {
    EmailCheckCorrect(s);
    EmailCheck(s)
  }

  function EmailCheck(s: string): bool
  {
    && '@' in s
    && var at := FirstIndex(s, '@');
    && 0 < at && at + 3 < |s|
    && (forall k :: at < k < |s| ==> s[k] != '@')
    && (forall k :: 0 <= k < |s| ==> !IsSpace(s[k]))
    && (exists k :: at + 2 <= k < |s| - 1 && s[k] == '.')
  }

  lemma EmailCheckCorrect(s: string)
    ensures EmailCheck(s) <==> MatchesEmailPattern(s)
  {
    if EmailCheck(s) {
      EmailCheckSound(s);
    }
    if MatchesEmailPattern(s) {
      EmailCheckComplete(s);
    }
  }

  lemma EmailCheckSound(s: string)
    requires EmailCheck(s)
    ensures MatchesEmailPattern(s)
  {
    var i := FirstIndex(s, '@');
    var j :| i + 2 <= j < |s| - 1 && s[j] == '.';
    assert EmailParts(s, i, j);
  }

  /** Every position of a plain slice holds a plain character. */
  lemma PlainSlice(s: string, lo: int, hi: int)
    requires 0 <= lo <= hi <= |s| && AllPlain(s[lo..hi])
    ensures forall k :: lo <= k < hi ==> PlainChar(s[k])
  {
    forall k | lo <= k < hi ensures PlainChar(s[k]) {
      assert s[k] == s[lo..hi][k - lo];
    }
  }

  lemma EmailCheckComplete(s: string)
    requires MatchesEmailPattern(s)
    ensures EmailCheck(s)
  {
    var i, j :| EmailParts(s, i, j);
    assert s[..i] == s[0..i];
    PlainSlice(s, 0, i);
    PlainSlice(s, i + 1, j);
    assert s[j + 1..] == s[j + 1..|s|];
    PlainSlice(s, j + 1, |s|);
    assert FirstIndex(s, '@') == i;
    assert forall k :: 0 <= k < |s| ==> !IsSpace(s[k]) by {
      forall k | 0 <= k < |s| ensures !IsSpace(s[k]) {
        if k != i && k != j {
          assert PlainChar(s[k]);
        }
      }
    }
  }

  /**
   * The submit handler's checks: one message per failed rule, in the order
   * name, email, message; the form is posted only when there are none.
   */
  method ValidateContact(name: string, email: string, message: string) returns (errors: seq<ContactError>)
    ensures NameTooShort in errors <==> |Trim(name)| < 2
    ensures InvalidEmail in errors <==> !MatchesEmailPattern(email)
    ensures MessageTooShort in errors <==> |Trim(message)| < 10
    ensures forall i, j :: 0 <= i < j < |errors| ==> Rank(errors[i]) < Rank(errors[j])
    ensures errors == [] <==> |Trim(name)| >= 2 && MatchesEmailPattern(email) && |Trim(message)| >= 10
  {
    var nameShort := |Trim(name)| < 2;
    var emailBad := !IsEmailAddress(email);
    var messageShort := |Trim(message)| < 10;
    errors := [];
    if nameShort {
      errors := errors + [NameTooShort];
    }
    if emailBad {
      errors := errors + [InvalidEmail];
    }
    if messageShort {
      errors := errors + [MessageTooShort];
    }
  }
}
