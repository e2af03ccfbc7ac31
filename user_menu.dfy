/** The two strings the user menu derives from the signed-in user's email:
    the avatar initials and the (possibly shortened) email shown. */
module UserMenu {
  import opened Types
  import opened JsString
  import Seqs

  /** The character class of `split(/[._-]/)`. */
  const NameSeps: set<char> := {'.', '_', '-'}

  /** `email.split('@')[0]`. */
  function LocalPart(email: string): string
  {
    Split(email, {'@'})[0]
  }

  function NameParts(email: string): seq<string>
  {
    Split(LocalPart(email), NameSeps)
  }

  /** `s[0]`: `None` stands for the `undefined` of an empty string. */
  function CharAt0(s: string): (r: Option<char>)
    ensures r.Some? <==> s != ""
  {
    if s == "" then None else Some(s[0])
  }

  /** A character or `undefined` as `+` writes it into a string. */
  function Show(c: Option<char>): string
  {
    match c
    case Some(x) => [x]
    case None => "undefined"
  }

  /** `getUserInitials()`; `None` for the email is a user without one. The
      result `None` is the `TypeError` of the source: when both of the first
      two parts are empty, `undefined + undefined` is `NaN`, which has no
      `toUpperCase`. When only one of them is empty, `+` writes the other's
      first character next to the text `undefined`. */
  function UserInitials(email: Option<string>): (r: Option<string>)
    ensures email.None? || email == Some("") ==> r == Some("?")
    ensures r.None? <==>
      email.Some? && email.value != "" && |NameParts(email.value)| > 1
      && NameParts(email.value)[0] == "" && NameParts(email.value)[1] == ""
    ensures r.Some? ==> forall i :: 0 <= i < |r.value| ==> !('a' <= r.value[i] <= 'z')
    ensures email.Some? && email.value != "" && |NameParts(email.value)| == 1 ==> r.Some? && |r.value| <= 2
    ensures (email.Some? && email.value != "" && |NameParts(email.value)| > 1
             && NameParts(email.value)[0] != "" && NameParts(email.value)[1] != "") ==> r.Some? && |r.value| == 2
  {
    if email.None? || email.value == "" then Some("?")
    else
      var parts := NameParts(email.value);
      if |parts| == 1 then
        Some(Upper(Take(parts[0], 2)))
      else
        var a, b := CharAt0(parts[0]), CharAt0(parts[1]);
        if a.None? && b.None? then None
        else
          Some(Upper(Show(a) + Show(b)))
  }

  /** The initials in terms of the email text itself, the local part being
      the text before the first `@`. Without a `.`, `_` or `-` in it the
      initials are its first two characters, upper-cased. When its first
      separator has a character before it and a character that is not a
      separator after it, the initials are the upper-cased first character
      and the character after that separator. The other cases, where a
      leading part is empty, are `EmptyPartShowsUndefined` and
      `EmptyPartsThrow`. */
  lemma InitialsFromEmailText(e: string)
    requires e != ""
    ensures var local := e[..FirstSep(e, {'@'})];
      var k := FirstSep(local, NameSeps);
      && (k == |local| ==> UserInitials(Some(e)) == Some(Upper(if |local| <= 2 then local else local[..2])))
      && (0 < k && k + 1 < |local| && local[k + 1] !in NameSeps ==>
            UserInitials(Some(e)) == Some(Upper([local[0], local[k + 1]])))
  {
    InitialsWithoutSep(e);
    InitialsAtSep(e);
  }

  /** A local part without separators is the only part. */
  lemma InitialsWithoutSep(e: string)
    requires e != ""
    ensures var local := e[..FirstSep(e, {'@'})];
      FirstSep(local, NameSeps) == |local| ==>
        UserInitials(Some(e)) == Some(Upper(if |local| <= 2 then local else local[..2]))
  {
    LocalPartIsPrefix(e);
    SplitAtFirst(LocalPart(e), NameSeps);
  }

  /** A separator after a non-empty first part, followed by a non-separator,
      gives the first character and the one after the separator. */
  lemma InitialsAtSep(e: string)
    requires e != ""
    ensures var local := e[..FirstSep(e, {'@'})];
      var k := FirstSep(local, NameSeps);
      0 < k && k + 1 < |local| && local[k + 1] !in NameSeps ==>
        UserInitials(Some(e)) == Some(Upper([local[0], local[k + 1]]))
  {
    LocalPartIsPrefix(e);
    var local := LocalPart(e);
    var k := FirstSep(local, NameSeps);
    if 0 < k && k + 1 < |local| && local[k + 1] !in NameSeps {
      InitialsFromParts(e, local, k);
      var parts := NameParts(e);
      var tail := local[k + 1..];
      SplitAtFirst(tail, NameSeps);
      assert parts[1] == Split(tail, NameSeps)[0];
      assert FirstSep(tail, NameSeps) > 0;
      assert parts[1][0] == local[k + 1];
      assert parts[0][0] == local[0];
      InitialsOfTwoParts(e);
    }
  }

  /** With two non-empty leading parts, the initials are their first
      characters. */
  lemma InitialsOfTwoParts(e: string)
    requires e != "" && |NameParts(e)| > 1 && NameParts(e)[0] != "" && NameParts(e)[1] != ""
    ensures UserInitials(Some(e)) == Some(Upper([NameParts(e)[0][0], NameParts(e)[1][0]]))
  {
    var parts := NameParts(e);
    assert Show(CharAt0(parts[0])) + Show(CharAt0(parts[1])) == [parts[0][0], parts[1][0]];
  }


  /** The local part is the text before the first `@` (all of it if none). */
  lemma LocalPartIsPrefix(e: string)
    ensures LocalPart(e) == e[..FirstSep(e, {'@'})]
  {
    SplitAtFirst(e, {'@'});
  }

  /** A separator at the start of the local part leaves the first part
      empty, and the initials show `UNDEFINED` in front of the next one. */
  lemma EmptyPartShowsUndefined()
    ensures UserInitials(Some("-x@a")) == Some("UNDEFINEDX")
  {
    PartsOfLeadingSeparator();
    assert Show(None) + Show(Some('x')) == "undefinedx";
    UpperUndefined();
  }

  lemma PartsOfLeadingSeparator()
    ensures NameParts("-x@a") == ["", "x"]
  {
    assert FirstSep("-x@a", {'@'}) == 2 by {
      assert "-x@a"[1..] == "x@a" && "x@a"[1..] == "@a";
    }
    LocalPartIsPrefix("-x@a");
    assert "-x@a"[..2] == "-x";
    InitialsFromParts("-x@a", "-x", 0);
    assert "-x"[1..] == "x";
    assert Split("x", NameSeps) == ["x"] by {
      assert "x"[1..] == [];
    }
  }

  lemma UpperUndefined()
    ensures Upper("undefinedx") == "UNDEFINEDX"
  {
    forall i | 0 <= i < 10 ensures Upper("undefinedx")[i] == "UNDEFINEDX"[i] {
    }
  }

  /** With nothing around the separator both parts are empty, and the
      menu throws. */
  lemma EmptyPartsThrow()
    ensures UserInitials(Some("-@a")) == None
  {
    assert FirstSep("-@a", {'@'}) == 1 by {
      assert "-@a"[1..] == "@a";
    }
    LocalPartIsPrefix("-@a");
    assert "-@a"[..1] == "-";
    InitialsFromParts("-@a", "-", 0);
    assert "-"[1..] == [];
    assert NameParts("-@a") == ["", ""];
  }

  /** The parts of an email whose local part is `local`, a name part
      separator at index `k`, are the text before it and what follows. */
  lemma InitialsFromParts(e: string, local: string, k: nat)
    requires LocalPart(e) == local
    requires k < |local| && FirstSep(local, NameSeps) == k
    ensures NameParts(e) == [local[..k]] + Split(local[k + 1..], NameSeps)
  {
    SplitAtFirst(local, NameSeps);
  }

  /** The parts that are not empty. */
  function NonEmptyParts(parts: seq<string>): (r: seq<string>)
    ensures forall p :: p in r <==> p in parts && p != ""
  {
    Seqs.Filter(parts, (p: string) => p != "")
  }

  /** The initials the menu evidently means: the first characters of the
      first two non-empty name parts, or the first two characters of the
      only one, and `?` when there is no name at all. */
  function NameInitials(email: Option<string>): (r: string)
    ensures email.None? || email == Some("") ==> r == "?"
    ensures 1 <= |r| <= 2
    ensures forall i :: 0 <= i < |r| ==> !('a' <= r[i] <= 'z')
  {
    if email.None? || email.value == "" then "?"
    else
      var words := NonEmptyParts(NameParts(email.value));
      if |words| == 0 then "?"
      else if |words| == 1 then
        assert words[0] in words;
        Upper(Take(words[0], 2))
      else
        assert words[0] in words && words[1] in words;
        Upper([words[0][0], words[1][0]])
  }

  /** Where the menu's own code has a non-empty answer without `undefined`
      in it, the corrected initials are the same. */
  lemma NameInitialsAgree(e: string)
    requires e != ""
    requires var parts := NameParts(e);
      if |parts| == 1 then parts[0] != "" else parts[0] != "" && parts[1] != ""
    ensures UserInitials(Some(e)) == Some(NameInitials(Some(e)))
  {
    var parts := NameParts(e);
    if |parts| > 1 {
      assert parts[1..][0] == parts[1] && parts[1..][1..] == parts[2..];
      assert NonEmptyParts(parts) == [parts[0]] + NonEmptyParts(parts[1..]);
      assert NonEmptyParts(parts[1..]) == [parts[1]] + NonEmptyParts(parts[2..]);
      assert Show(CharAt0(parts[0])) + Show(CharAt0(parts[1])) == [parts[0][0], parts[1][0]];
    } else {
      assert parts == [parts[0]];
    }
  }

  /** `truncatedEmail`: `user.email || 'User'`, cut to 20 characters plus
      `...` when longer. */
  function DisplayEmail(email: Option<string>): (r: string)
    ensures email.None? || email == Some("") ==> r == "User"
    ensures email.Some? && email.value != "" && |email.value| <= 20 ==> r == email.value
    ensures email.Some? && |email.value| > 20 ==> r == email.value[..20] + "..."
  {
    var shown := if email.None? || email.value == "" then "User" else email.value;
    if |shown| > 20 then shown[..20] + "..." else shown
  }

  /** The shown email is never longer than 23 characters and always starts
      with as much of the email as fits in 20. */
  lemma DisplayEmailBounds(e: string)
    requires e != ""
    ensures |DisplayEmail(Some(e))| <= 23
    ensures e[..if |e| <= 20 then |e| else 20] <= DisplayEmail(Some(e))
    ensures DisplayEmail(Some(e)) != e ==> |e| > 20 && |DisplayEmail(Some(e))| == 23
  {
  }
}
