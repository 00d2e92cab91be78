/**
 * `validateForm` of the contact form (script.js:309-333): four checks run in
 * a fixed order, and the first that fails alone decides the error.
 */
module ContactForm {
  import opened Wrappers

  /**
   * The characters JavaScript treats as white space, both for
   * `String.prototype.trim` and for `\s` in a regular expression:
   * tab, line feed, vertical tab, form feed, carriage return, space,
   * no-break space, the byte order mark, the other space separators and
   * the line and paragraph separators.
   */
  predicate IsJsSpace(c: char)
  {
    var n := c as int;
    (0x09 <= n <= 0x0D) || n == 0x20 || n == 0xA0 || n == 0x1680 || (0x2000 <= n <= 0x200A)
    || n == 0x2028 || n == 0x2029 || n == 0x202F || n == 0x205F || n == 0x3000 || n == 0xFEFF
  }

  /**
   * Which characters are white space: the four usual ones are, no printable
   * ASCII character is, and nothing above the byte order mark is.
   */
  lemma JsSpaceCharacters()
    ensures IsJsSpace(' ') && IsJsSpace('\t') && IsJsSpace('\n') && IsJsSpace('\r')
    ensures forall c: char :: 0x21 <= c as int <= 0x7E ==> !IsJsSpace(c)
    ensures forall c: char :: IsJsSpace(c) ==> c as int <= 0xFEFF
  {
  }

  predicate AllSpace(s: string)
  {
    forall k :: 0 <= k < |s| ==> IsJsSpace(s[k])
  }

  lemma AllSpaceConcat(a: string, b: string)
    requires AllSpace(a) && AllSpace(b)
    ensures AllSpace(a + b)
  {
    forall k | 0 <= k < |a + b| ensures IsJsSpace((a + b)[k]) {
      if k < |a| { assert (a + b)[k] == a[k]; } else { assert (a + b)[k] == b[k - |a|]; }
    }
  }

  /** Leading white space removed: a suffix of `s` that does not start with white space. */
  function TrimStart(s: string): (r: string)
    ensures |r| <= |s| && r == s[|s| - |r|..]
    ensures AllSpace(s[..|s| - |r|])
    ensures r != [] ==> !IsJsSpace(r[0])
  {
    if s != [] && IsJsSpace(s[0]) then
      var r := TrimStart(s[1..]);
      SpacePrefixGrows(s, r);
      r
    else s
  }

  /** Trailing white space removed: a prefix of `s` that does not end with white space. */
  function TrimEnd(s: string): (r: string)
    ensures |r| <= |s| && r == s[..|r|]
    ensures AllSpace(s[|r|..])
    ensures r != [] ==> !IsJsSpace(r[|r| - 1])
  {
    if s != [] && IsJsSpace(s[|s| - 1]) then
      var r := TrimEnd(s[..|s| - 1]);
      SpaceSuffixGrows(s, |r|);
      r
    else s
  }

  lemma SpacePrefixGrows(s: string, r: string)
    requires s != [] && IsJsSpace(s[0]) && |r| < |s|
    requires AllSpace(s[1..][..|s[1..]| - |r|])
    ensures AllSpace(s[..|s| - |r|])
  {
    var m := |s| - 1 - |r|;
    assert s[..|s| - |r|] == [s[0]] + s[1..][..m];
    AllSpaceConcat([s[0]], s[1..][..m]);
  }

  lemma SpaceSuffixGrows(s: string, m: nat)
    requires s != [] && IsJsSpace(s[|s| - 1]) && m < |s|
    requires AllSpace(s[..|s| - 1][m..])
    ensures AllSpace(s[m..])
  {
    assert s[m..] == s[..|s| - 1][m..] + [s[|s| - 1]];
    AllSpaceConcat(s[..|s| - 1][m..], [s[|s| - 1]]);
  }

  /** Neither the first nor the last character is white space. */
  predicate Trimmed(s: string)
  {
    s != [] ==> !IsJsSpace(s[0]) && !IsJsSpace(s[|s| - 1])
  }

  /** `s.trim()` */
  function Trim(s: string): (r: string)
    ensures |r| <= |s|
    ensures Trimmed(r)
    ensures r == [] <==> AllSpace(s)
  {
    var t := TrimStart(s);
    var r := TrimEnd(t);
    assert t == [] ==> s[..|s| - |t|] == s;
    assert t != [] ==> s[|s| - |t|] == t[0];
    TrimEndKeepsFirst(t);
    r
  }

  lemma TrimEndKeepsFirst(t: string)
    ensures t != [] && !IsJsSpace(t[0]) ==> TrimEnd(t) != [] && TrimEnd(t)[0] == t[0]
  {
    if t != [] && !IsJsSpace(t[0]) {
      assert !AllSpace(t[0..]) by { assert t[0..][0] == t[0]; }
    }
  }

  /** Trimming takes off exactly the white space around a core that neither starts nor ends with white space. */
  lemma {:induction false} TrimStripsPadding(before: string, core: string, after: string)
    requires AllSpace(before) && AllSpace(after)
    requires Trimmed(core)
    ensures Trim(before + core + after) == core
  {
    var s := before + core + after;
    if core == [] {
      assert AllSpace(s) by {
        forall k | 0 <= k < |s| ensures IsJsSpace(s[k]) {
          if k < |before| { assert s[k] == before[k]; } else { assert s[k] == after[k - |before|]; }
        }
      }
    } else {
      assert s == before + (core + after);
      assert (core + after)[0] == core[0];
      TrimStartStripsPadding(before, core + after);
      TrimEndStripsPadding(core, after);
    }
  }

  lemma {:induction false} TrimStartStripsPadding(before: string, rest: string)
    requires AllSpace(before)
    requires rest != [] ==> !IsJsSpace(rest[0])
    ensures TrimStart(before + rest) == rest
  {
    if before != [] {
      assert (before + rest)[1..] == before[1..] + rest;
      TrimStartStripsPadding(before[1..], rest);
    }
  }

  lemma {:induction false} TrimEndStripsPadding(core: string, after: string)
    requires AllSpace(after)
    requires core != [] && !IsJsSpace(core[|core| - 1])
    ensures TrimEnd(core + after) == core
  {
    if after != [] {
      var s := core + after;
      assert s[..|s| - 1] == core + after[..|after| - 1];
      TrimEndStripsPadding(core, after[..|after| - 1]);
    } else {
      assert core + after == core;
    }
  }

  /**
   * `.length` of a JavaScript string counts UTF-16 code units: a character
   * outside the Basic Multilingual Plane counts twice.
   */
  function Utf16Length(s: string): (n: nat)
    ensures |s| <= n <= 2 * |s|
    ensures n == |s| <==> forall k :: 0 <= k < |s| ==> s[k] as int < 0x1_0000
  {
    if s == [] then 0
    else
      assert forall k :: 1 <= k < |s| ==> s[k] == s[1..][k - 1];
      (if s[0] as int >= 0x1_0000 then 2 else 1) + Utf16Length(s[1..])
  }

  /** `.length` of a concatenation is the sum of the lengths. */
  lemma {:induction false} Utf16LengthAdds(a: string, b: string)
    ensures Utf16Length(a + b) == Utf16Length(a) + Utf16Length(b)
  {
    if a != [] {
      assert (a + b)[1..] == a[1..] + b;
      Utf16LengthAdds(a[1..], b);
    } else {
      assert a + b == b;
    }
  }

  /** One character counts two code units outside the Basic Multilingual Plane and one inside it. */
  lemma Utf16LengthOne(c: char)
    ensures Utf16Length([c]) == if c as int >= 0x1_0000 then 2 else 1
  {
    assert [c][1..] == [];
  }

  // ---------------------------------------------------------------------
  // The email pattern ^[^\s@]+@[^\s@]+\.[^\s@]+$
  // ---------------------------------------------------------------------

  /** A character the class `[^\s@]` accepts. */
  predicate IsEmailChar(c: char)
  {
    !IsJsSpace(c) && c != '@'
  }

  predicate AllEmailChars(s: string)
  {
    forall k :: 0 <= k < |s| ==> IsEmailChar(s[k])
  }

  /**
   * The language of the regular expression, written out: a non-empty local
   * part, one '@', a non-empty run, a '.', a non-empty run, and none of the
   * three runs holds white space or '@'.
   */
  ghost predicate MatchesEmailPattern(s: string)
  {
    exists i, j :: 0 < i && i + 1 < j && j + 1 < |s| && s[i] == '@' && s[j] == '.'
      && AllEmailChars(s[..i]) && AllEmailChars(s[i + 1..j]) && AllEmailChars(s[j + 1..])
  }

  /** The position of the first `c` in `s`, if any. */
  function FirstIndexOf(s: string, c: char): (r: Option<nat>)
    ensures r.Some? ==> r.value < |s| && s[r.value] == c && c !in s[..r.value]
    ensures r.None? ==> c !in s
  {
    if s == [] then None
    else if s[0] == c then Some(0)
    else match FirstIndexOf(s[1..], c)
      case None => None
      case Some(k) =>
        assert s[..k + 1] == [s[0]] + s[1..][..k];
        Some(k + 1)
  }

  /** A '.' that is neither the first nor the last character. */
  predicate HasInnerDot(d: string)
  {
    |d| >= 3 && '.' in d[1..|d| - 1]
  }

  /**
   * A split of `s` at position `i` that the test accepts: the part before it
   * is non-empty and free of white space, the part after it is free of white
   * space and '@' and holds an inner '.'.
   */
  predicate SplitsAsEmail(s: string, i: nat)
    requires i < |s|
  {
    0 < i && (forall k :: 0 <= k < i ==> !IsJsSpace(s[k]))
    && AllEmailChars(s[i + 1..]) && HasInnerDot(s[i + 1..])
  }

  /**
   * `emailRegex.test(s)`, hand-written: split at the first '@' and test
   * both sides. It accepts exactly the language of the regular expression.
   */
  predicate IsValidEmail(s: string)
    ensures IsValidEmail(s) <==> MatchesEmailPattern(s)
  {
    FirstSplitMatchesPattern(s);
    match FirstIndexOf(s, '@')
    case None => false
    case Some(i) => SplitsAsEmail(s, i)
  }

  /** The pattern matches exactly when the split at the first '@' is accepted. */
  lemma FirstSplitMatchesPattern(s: string)
    ensures MatchesEmailPattern(s)
            <==> FirstIndexOf(s, '@').Some? && SplitsAsEmail(s, FirstIndexOf(s, '@').value)
  {
    var f := FirstIndexOf(s, '@');
    if f.Some? && SplitsAsEmail(s, f.value) {
      EmailTestSound(s, f.value);
    }
    if MatchesEmailPattern(s) {
      var i, j :| 0 < i && i + 1 < j && j + 1 < |s| && s[i] == '@' && s[j] == '.'
        && AllEmailChars(s[..i]) && AllEmailChars(s[i + 1..j]) && AllEmailChars(s[j + 1..]);
      EmailTestComplete(s, i, j);
    }
  }

  /** An accepted split is a match of the pattern. */
  lemma EmailTestSound(s: string, i: nat)
    requires FirstIndexOf(s, '@') == Some(i) && SplitsAsEmail(s, i)
    ensures MatchesEmailPattern(s)
  {
    var d := s[i + 1..];
    var p :| 0 <= p < |d[1..|d| - 1]| && d[1..|d| - 1][p] == '.';
    var j := i + 2 + p;
    assert s[j] == '.';
    assert AllEmailChars(s[..i]) by {
      forall k | 0 <= k < i ensures IsEmailChar(s[..i][k]) {
        assert s[..i][k] in s[..i];
      }
    }
    assert AllEmailChars(s[i + 1..j]) by {
      EmailCharsSlice(d, 0, p + 1);
      assert s[i + 1..j] == d[0..p + 1];
    }
    assert AllEmailChars(s[j + 1..]) by {
      EmailCharsSlice(d, p + 2, |d|);
      assert s[j + 1..] == d[p + 2..|d|];
    }
  }

  lemma EmailCharsSlice(d: string, a: nat, b: nat)
    requires AllEmailChars(d) && a <= b <= |d|
    ensures AllEmailChars(d[a..b])
  {
    forall k | 0 <= k < b - a ensures IsEmailChar(d[a..b][k]) {
      assert d[a..b][k] == d[a + k];
    }
  }

  /** Every match of the pattern has its '@' first, and that split is accepted. */
  lemma EmailTestComplete(s: string, i: nat, j: nat)
    requires 0 < i && i + 1 < j && j + 1 < |s| && s[i] == '@' && s[j] == '.'
    requires AllEmailChars(s[..i]) && AllEmailChars(s[i + 1..j]) && AllEmailChars(s[j + 1..])
    ensures FirstIndexOf(s, '@') == Some(i) && SplitsAsEmail(s, i)
  {
    assert '@' !in s[..i] by {
      forall k | 0 <= k < i ensures s[..i][k] != '@' {
        assert IsEmailChar(s[..i][k]);
      }
    }
    var f := FirstIndexOf(s, '@');
    assert f.Some? by { assert s[i] in s; }
    assert f.value == i;
    var d := s[i + 1..];
    assert AllEmailChars(d) by {
      forall k | 0 <= k < |d| ensures IsEmailChar(d[k]) {
        if k < j - i - 1 {
          assert d[k] == s[i + 1..j][k];
        } else if k > j - i - 1 {
          assert d[k] == s[j + 1..][k - (j - i)];
        } else {
          assert d[k] == '.';
        }
      }
    }
    assert d[1..|d| - 1][j - i - 2] == '.';
    assert forall k :: 0 <= k < i ==> !IsJsSpace(s[k]) by {
      forall k | 0 <= k < i ensures !IsJsSpace(s[k]) {
        assert s[k] == s[..i][k];
      }
    }
  }

  // ---------------------------------------------------------------------
  // validateForm
  // ---------------------------------------------------------------------

  datatype FormError = InvalidName | InvalidEmail | MissingSubject | ShortMessage

  datatype Verdict = Accepted | Rejected(error: FormError)

  /** The error notification shown for each failing check. */
  function ErrorNotice(e: FormError): (notice: string)
    ensures notice != ""
  {
    match e
    case InvalidName => "Por favor, introduce un nombre válido."
    case InvalidEmail => "Por favor, introduce un email válido."
    case MissingSubject => "Por favor, introduce un asunto."
    case ShortMessage => "El mensaje debe tener al menos 10 caracteres."
  }

  /** Each failing check has its own notice, so the notice tells which check failed. */
  lemma ErrorNoticesDistinct(e1: FormError, e2: FormError)
    ensures ErrorNotice(e1) == ErrorNotice(e2) ==> e1 == e2
  {
  }

  ghost predicate NameOk(name: string) { Utf16Length(Trim(name)) >= 2 }
  ghost predicate SubjectOk(subject: string) { Utf16Length(Trim(subject)) >= 3 }
  ghost predicate MessageOk(message: string) { Utf16Length(Trim(message)) >= 10 }

  /** Five emoji are ten code units long, enough for the message check. */
  lemma FiveEmojiPassMessageCheck()
    ensures MessageOk("\U{1F600}\U{1F600}\U{1F600}\U{1F600}\U{1F600}")
  {
    var e := "\U{1F600}\U{1F600}\U{1F600}\U{1F600}\U{1F600}";
    assert !IsJsSpace(e[0]) && !IsJsSpace(e[4]);
    TrimStripsPadding([], e, []);
    assert [] + e + [] == e;
    var one := "\U{1F600}";
    Utf16LengthOne(one[0]);
    assert [one[0]] == one;
    assert e == one + one + one + one + one;
    Utf16LengthAdds(one, one);
    Utf16LengthAdds(one + one, one);
    Utf16LengthAdds(one + one + one, one);
    Utf16LengthAdds(one + one + one + one, one);
  }

  /**
   * `validateForm({name, email, subject, message})`. An empty field fails
   * its check like a too-short one (`!data.name`).
   */
  function ValidateForm(name: string, email: string, subject: string, message: string): (r: Verdict)
    ensures r == Accepted <==> NameOk(name) && MatchesEmailPattern(email) && SubjectOk(subject) && MessageOk(message)
    ensures r == Rejected(InvalidName) <==> !NameOk(name)
    ensures r == Rejected(InvalidEmail) <==> NameOk(name) && !MatchesEmailPattern(email)
    ensures r == Rejected(MissingSubject) <==> NameOk(name) && MatchesEmailPattern(email) && !SubjectOk(subject)
    ensures r == Rejected(ShortMessage)
            <==> NameOk(name) && MatchesEmailPattern(email) && SubjectOk(subject) && !MessageOk(message)
  {
    if name == "" || Utf16Length(Trim(name)) < 2 then Rejected(InvalidName)
    else if !IsValidEmail(email) then Rejected(InvalidEmail)
    else if subject == "" || Utf16Length(Trim(subject)) < 3 then Rejected(MissingSubject)
    else if message == "" || Utf16Length(Trim(message)) < 10 then Rejected(ShortMessage)
    else Accepted
  }

  /** Once a check fails, the fields checked after it cannot change the verdict. */
  lemma FirstFailureDecides(name: string, email: string, subject: string, message: string,
                            email': string, subject': string, message': string)
    ensures ValidateForm(name, email, subject, message) == Rejected(InvalidName)
            ==> ValidateForm(name, email', subject', message') == Rejected(InvalidName)
    ensures ValidateForm(name, email, subject, message) == Rejected(InvalidEmail)
            ==> ValidateForm(name, email, subject', message') == Rejected(InvalidEmail)
    ensures ValidateForm(name, email, subject, message) == Rejected(MissingSubject)
            ==> ValidateForm(name, email, subject, message') == Rejected(MissingSubject)
  {
  }

  /** White space added around a field never changes its trimmed value, so never decides a length check. */
  lemma PaddingIgnored(before: string, field: string, after: string)
    requires AllSpace(before) && AllSpace(after)
    ensures Trim(before + field + after) == Trim(field)
    ensures NameOk(before + field + after) <==> NameOk(field)
    ensures SubjectOk(before + field + after) <==> SubjectOk(field)
    ensures MessageOk(before + field + after) <==> MessageOk(field)
  {
    var lead, trail := TrimSplits(field);
    AllSpaceConcat(before, lead);
    AllSpaceConcat(trail, after);
    Regroup(before, lead, Trim(field), trail, after);
    TrimStripsPadding(before + lead, Trim(field), trail + after);
  }

  /** Every string is its trimmed value with white space before and after it. */
  lemma TrimSplits(s: string) returns (lead: string, trail: string)
    ensures s == lead + Trim(s) + trail
    ensures AllSpace(lead) && AllSpace(trail)
  {
    var t := TrimStart(s);
    var core := TrimEnd(t);
    lead, trail := s[..|s| - |t|], t[|core|..];
    SplitBeforeSuffix(s, t);
    SplitAfterPrefix(t, core);
    AppendAssoc(lead, core, trail);
  }

  lemma SplitBeforeSuffix(s: string, r: string)
    requires |r| <= |s| && r == s[|s| - |r|..]
    ensures s == s[..|s| - |r|] + r
  {
  }

  lemma SplitAfterPrefix(s: string, r: string)
    requires |r| <= |s| && r == s[..|r|]
    ensures s == r + s[|r|..]
  {
  }

  lemma AppendAssoc(a: string, b: string, c: string)
    ensures a + (b + c) == a + b + c
  {
  }

  lemma Regroup(a: string, b: string, c: string, d: string, e: string)
    ensures a + (b + c + d) + e == (a + b) + c + (d + e)
  {
  }

  /** A few inputs, one per verdict. */
  lemma SampleEmails()
    ensures IsValidEmail("a@b.c") && !IsValidEmail("a@b") && !IsValidEmail("a b@c.d")
  {
    AcceptsPlainAddress();
    RejectsMissingDot();
    RejectsSpace();
  }

  lemma AcceptsPlainAddress()
    ensures IsValidEmail("a@b.c")
  {
    assert FirstIndexOf("a@b.c", '@') == Some(1);
    assert "a@b.c"[2..] == "b.c";
    assert "b.c"[1..2] == ".";
  }

  lemma RejectsMissingDot()
    ensures !IsValidEmail("a@b")
  {
    assert FirstIndexOf("a@b", '@') == Some(1);
  }

  lemma RejectsSpace()
    ensures !IsValidEmail("a b@c.d")
  {
    assert FirstIndexOf("@c.d", '@') == Some(0);
    assert FirstIndexOf("b@c.d", '@') == Some(1) by { assert "b@c.d"[1..] == "@c.d"; }
    assert FirstIndexOf(" b@c.d", '@') == Some(2) by { assert " b@c.d"[1..] == "b@c.d"; }
    assert FirstIndexOf("a b@c.d", '@') == Some(3) by { assert "a b@c.d"[1..] == " b@c.d"; }
    assert IsJsSpace("a b@c.d"[1]);
  }

}
