/** Validation of the contact form in js/main.js: `validateInput` for each
    field, and the submit handler that validates every field and accepts the
    form only when all of them pass. Lengths are counted in characters. */
module ContactForm {
  import opened Wrappers
  import opened Text

  /** The email rule `^[^\s@]+@[^\s@]+\.[^\s@]+$`: no whitespace, exactly one
      `@` with something before it, and a `.` with something between it and
      the `@` and something after it. */
  ghost predicate EmailPattern(s: string) {
    exists i, j :: EmailSplit(s, i, j)
  }

  /** `s` matches the email rule with its `@` at `i` and the chosen `.` at `j`. */
  predicate EmailSplit(s: string, i: int, j: int) {
    0 < i && i + 1 < j < |s| - 1 && s[i] == '@' && s[j] == '.'
    && forall m :: 0 <= m < |s| ==> !IsSpace(s[m]) && (s[m] == '@' ==> m == i)
  }

  /** The characters of `[\d\s-+()]`: digits, whitespace, `-`, `+`, `(` and `)`. */
  predicate PhoneChar(c: char) {
    IsDigit(c) || IsSpace(c) || c == '-' || c == '+' || c == '(' || c == ')'
  }

  /** The phone rule `^[\d\s-+()]{10,}$`. */
  predicate PhonePattern(s: string) {
    |s| >= 10 && forall m :: 0 <= m < |s| ==> PhoneChar(s[m])
  }

  /** Whether `validateInput` accepts `raw` in the field with id `id`: the
      value is trimmed first. */
  ghost predicate Accepts(id: string, raw: string) {
    AcceptsTrimmed(id, Trim(raw))
  }

  /** The rule for each field id on a trimmed value `v`: an empty phone number
      is allowed, and fields with any other id always pass. */
  ghost predicate AcceptsTrimmed(id: string, v: string) {
    if id == "name" then |v| >= 2
    else if id == "email" then EmailPattern(v)
    else if id == "phone" then v == "" || PhonePattern(v)
    else if id == "message" then |v| >= 10
    else true
  }

  /** One pass over `s` checking the email rule. */
  method IsEmail(s: string) returns (ok: bool)
    ensures ok <==> EmailPattern(s)
  {
    var at := -1;
    var extraAt := false;
    var spaced := false;
    var k := 0;
    while k < |s|
      invariant 0 <= k <= |s|
      invariant spaced <==> exists m :: 0 <= m < k && IsSpace(s[m])
      invariant -1 <= at < k
      invariant at == -1 ==> !extraAt && forall m :: 0 <= m < k ==> s[m] != '@'
      invariant at >= 0 ==> s[at] == '@' && forall m :: 0 <= m < at ==> s[m] != '@'
      invariant at >= 0 ==> (extraAt <==> exists m :: at < m < k && s[m] == '@')
    {
      if IsSpace(s[k]) {
        spaced := true;
      }
      if s[k] == '@' {
        if at == -1 {
          at := k;
        } else {
          extraAt := true;
        }
      }
      k := k + 1;
    }
    if spaced || at <= 0 || extraAt {
      ok := false;
      return;
    }
    var dot := -1;
    var j := at + 2;
    while j < |s| - 1
      invariant at + 2 <= j
      invariant dot == -1 ==> forall m :: at + 1 < m < j && m < |s| ==> s[m] != '.'
      invariant dot != -1 ==> at + 1 < dot < |s| - 1 && s[dot] == '.'
    {
      if s[j] == '.' {
        dot := j;
      }
      j := j + 1;
    }
    ok := dot != -1;
    if ok {
      assert EmailSplit(s, at, dot);
    }
  }

  /** What `validateInput` does to a field: the result, which also decides the
      `invalid` class, and the text put in the field's error element, or
      `None` when the text is left as it was. */
  datatype Verdict = Verdict(valid: bool, message: Option<string>)

  /** The error text for a field's id and outcome; an empty phone number and
      an unknown id leave the text unchanged. */
  function Message(id: string, value: string, valid: bool): (r: Option<string>)
    ensures r.None? <==> (id == "phone" && value == "")
                         || (id != "name" && id != "email" && id != "phone" && id != "message")
    ensures r.Some? ==> (r.value == "" <==> valid)
  {
    if id == "name" then Some(if valid then "" else "Name must be at least 2 characters")
    else if id == "email" then Some(if valid then "" else "Please enter a valid email")
    else if id == "phone" then
      if value == "" then None else Some(if valid then "" else "Please enter a valid phone number")
    else if id == "message" then Some(if valid then "" else "Message must be at least 10 characters")
    else None
  }

  /** What the rules say `validateInput` reports for `raw` in field `id`. */
  ghost function Judge(id: string, raw: string): Verdict {
    Verdict(Accepts(id, raw), Message(id, Trim(raw), Accepts(id, raw)))
  }

  /** `validateInput`. */
  method Validate(id: string, raw: string) returns (v: Verdict)
    ensures v.valid <==> Accepts(id, raw)
    ensures v.message == Message(id, Trim(raw), v.valid)
    ensures v == Judge(id, raw)
  {
    var value := Trim(raw);
    var valid := true;
    if id == "name" {
      valid := |value| >= 2;
    } else if id == "email" {
      valid := IsEmail(value);
    } else if id == "phone" {
      if value != "" {
        valid := PhonePattern(value);
      }
    } else if id == "message" {
      valid := |value| >= 10;
    }
    v := Verdict(valid, Message(id, value, valid));
  }

  /** A form control: its id and its current value. */
  datatype Field = Field(id: string, value: string)

  /** The submit handler: every field is validated, so each one shows its own
      error, and the form is accepted (the thank-you message appears) exactly
      when all of them pass. */
  method Submit(fields: seq<Field>) returns (ok: bool, verdicts: seq<Verdict>)
    ensures |verdicts| == |fields|
    ensures forall k :: 0 <= k < |fields| ==> verdicts[k] == Judge(fields[k].id, fields[k].value)
    ensures ok <==> forall k :: 0 <= k < |fields| ==> verdicts[k].valid
    ensures ok <==> forall k :: 0 <= k < |fields| ==> Accepts(fields[k].id, fields[k].value)
  {
    ghost var expected := Judgements(fields);
    ok := true;
    verdicts := [];
    while |verdicts| < |fields|
      invariant |verdicts| <= |fields| && verdicts == expected[..|verdicts|]
      invariant ok <==> forall m :: 0 <= m < |verdicts| ==> verdicts[m].valid
    {
      var f := fields[|verdicts|];
      var v := Validate(f.id, f.value);
      PrefixAppend(expected, verdicts, v);
      ValidAppend(verdicts, v);
      ok := ok && v.valid;
      verdicts := verdicts + [v];
    }
    assert verdicts == expected;
    ReportsAccept(fields, verdicts);
  }

  /** The verdict the rules give each field, in order. */
  ghost function Judgements(fields: seq<Field>): (r: seq<Verdict>)
    ensures |r| == |fields|
    ensures forall k :: 0 <= k < |fields| ==> r[k] == Judge(fields[k].id, fields[k].value)
  {
    seq(|fields|, k requires 0 <= k < |fields| => Judge(fields[k].id, fields[k].value))
  }

  /** Appending the next element of `all` to a prefix of it gives the next prefix. */
  lemma PrefixAppend(all: seq<Verdict>, done: seq<Verdict>, v: Verdict)
    requires |done| < |all| && done == all[..|done|] && v == all[|done|]
    ensures done + [v] == all[..|done| + 1]
  {
  }

  /** All verdicts of `verdicts + [v]` are valid exactly when all of
      `verdicts` are and `v` is. */
  lemma ValidAppend(verdicts: seq<Verdict>, v: Verdict)
    ensures (forall m :: 0 <= m < |verdicts + [v]| ==> (verdicts + [v])[m].valid)
            <==> (forall m :: 0 <= m < |verdicts| ==> verdicts[m].valid) && v.valid
  {
    var next := verdicts + [v];
    assert next[|verdicts|] == v;
    assert forall m :: 0 <= m < |verdicts| ==> next[m] == verdicts[m];
  }

  /** Verdicts reported for every field are valid exactly where the fields are accepted. */
  lemma ReportsAccept(fields: seq<Field>, verdicts: seq<Verdict>)
    requires |verdicts| == |fields|
    requires forall k :: 0 <= k < |fields| ==> verdicts[k] == Judge(fields[k].id, fields[k].value)
    ensures (forall k :: 0 <= k < |fields| ==> verdicts[k].valid)
            <==> (forall k :: 0 <= k < |fields| ==> Accepts(fields[k].id, fields[k].value))
  {
    forall k | 0 <= k < |fields| ensures verdicts[k].valid <==> Accepts(fields[k].id, fields[k].value) {
      assert verdicts[k].valid == Judge(fields[k].id, fields[k].value).valid;
    }
  }

  /** Surrounding whitespace never decides a field: a value and its trimmed
      form are accepted alike. */
  lemma TrimDoesNotMatter(id: string, raw: string)
    ensures Accepts(id, raw) <==> Accepts(id, Trim(raw))
  {
    TrimIdempotent(raw);
  }

  /** Every accepted email holds exactly one `@`, and no accepted value of
      the email field is whitespace-only. */
  lemma EmailHasOneAt(s: string)
    requires EmailPattern(s)
    ensures |s| >= 5
    ensures forall m, n :: 0 <= m < n < |s| && s[m] == '@' ==> s[n] != '@'
  {
  }

  /** `a@b.c` is an email; removing its dot, doubling its `@` or putting a
      space inside it makes it fail. */
  lemma SampleEmails(good: string, noDot: string, twoAts: string, spaced: string)
    requires good == "a@b.c" && noDot == "a@bc" && twoAts == "a@@b.c" && spaced == "a @b.c"
    ensures EmailPattern(good)
    ensures !EmailPattern(noDot) && !EmailPattern(twoAts) && !EmailPattern(spaced)
  {
    assert good[1] == '@' && good[3] == '.';
    assert forall m :: 0 <= m < |good| ==> !IsSpace(good[m]) && (good[m] == '@' ==> m == 1);
    assert EmailSplit(good, 1, 3);
    assert noDot[2] != '.';
    assert twoAts[1] == '@' && twoAts[2] == '@';
    assert IsSpace(spaced[1]);
  }
}
