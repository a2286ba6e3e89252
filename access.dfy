/** Access control of the bot: the allow-list read from the ALLOWED_USER_IDS
    setting (bot.py:13-14) and the `restricted` guard that every handler is
    wrapped in (bot.py:16-25). */
module Access {
  import opened Wrappers

  /** The separator of the ALLOWED_USER_IDS setting. */
  const Separator: char := ','

  // ---------------------------------------------------------------------------
  // Python's str.join and str.split for a one-character separator
  // ---------------------------------------------------------------------------

  /** `[sep].join(pieces)` */
  function Join(pieces: seq<string>, sep: char): (joined: string)
  {
    if |pieces| == 0 then ""
    else if |pieces| == 1 then pieces[0]
    else pieces[0] + [sep] + Join(pieces[1..], sep)
  }

  /** `s.split(sep)`: the maximal runs of characters between separators, in
      order, empties included; the empty string splits into `[""]`. */
  function Split(s: string, sep: char): (pieces: seq<string>)
    ensures |pieces| >= 1
    decreases |s|
  {
    if |s| == 0 then [""]
    else
      var rest := Split(s[1..], sep);
      if s[0] == sep then [""] + rest
      else [[s[0]] + rest[0]] + rest[1..]
  }

  /** No piece contains the separator. */
  predicate SeparatorFree(pieces: seq<string>, sep: char)
  {
    forall i :: 0 <= i < |pieces| ==> sep !in pieces[i]
  }

  /** Prepending a character to the first piece prepends it to the joined string. */
  lemma {:induction false} JoinExtendsFirst(c: char, first: string, tail: seq<string>, sep: char)
    ensures Join([[c] + first] + tail, sep) == [c] + Join([first] + tail, sep)
  {
  }

  /** Splitting loses nothing: joining the pieces gives back the string, and
      no piece contains the separator. */
  lemma {:induction false} SplitJoin(s: string, sep: char)
    ensures Join(Split(s, sep), sep) == s
    ensures SeparatorFree(Split(s, sep), sep)
    decreases |s|
  {
    if |s| > 0 {
      var rest := Split(s[1..], sep);
      SplitJoin(s[1..], sep);
      if s[0] == sep {
        assert ([""] + rest)[1..] == rest;
        assert s == [sep] + s[1..];
      } else {
        assert rest == [rest[0]] + rest[1..];
        JoinExtendsFirst(s[0], rest[0], rest[1..], sep);
        assert s == [s[0]] + s[1..];
        var pieces := [[s[0]] + rest[0]] + rest[1..];
        forall i | 0 <= i < |pieces| ensures sep !in pieces[i] {
          if i > 0 { assert pieces[i] == rest[i]; }
        }
      }
    }
  }

  /** Splitting is the only separator-free way to cut a string: splitting the
      join of separator-free pieces gives back exactly those pieces. */
  lemma {:induction false} JoinSplit(pieces: seq<string>, sep: char)
    requires |pieces| >= 1
    requires SeparatorFree(pieces, sep)
    ensures Split(Join(pieces, sep), sep) == pieces
    decreases |Join(pieces, sep)|
  {
    var s := Join(pieces, sep);
    if pieces[0] == "" {
      if |pieces| > 1 {
        var tail := pieces[1..];
        assert s == [sep] + Join(tail, sep);
        assert s[1..] == Join(tail, sep);
        assert SeparatorFree(tail, sep) by {
          forall i | 0 <= i < |tail| ensures sep !in tail[i] { assert tail[i] == pieces[i + 1]; }
        }
        JoinSplit(tail, sep);
        assert pieces == [""] + tail;
      }
    } else {
      var c := pieces[0][0];
      var first := pieces[0][1..];
      var tail := pieces[1..];
      assert pieces[0] == [c] + first;
      assert pieces == [[c] + first] + tail;
      var shorter := [first] + tail;
      JoinExtendsFirst(c, first, tail, sep);
      assert s == [c] + Join(shorter, sep);
      assert s[1..] == Join(shorter, sep);
      assert c != sep by { assert pieces[0][0] == c; }
      assert SeparatorFree(shorter, sep) by {
        forall i | 0 <= i < |shorter| ensures sep !in shorter[i] {
          if i == 0 {
            assert forall k :: 0 <= k < |first| ==> first[k] == pieces[0][k + 1];
          } else {
            assert shorter[i] == pieces[i];
          }
        }
      }
      JoinSplit(shorter, sep);
      var rest := Split(s[1..], sep);
      assert rest == shorter;
      assert rest[1..] == tail;
    }
  }

  // ---------------------------------------------------------------------------
  // The allow-list setting
  // ---------------------------------------------------------------------------

  /** bot.py:13-14: an unset (`None`) or empty setting — both falsy in Python —
      gives the empty list; any other value is split at every comma, without
      trimming the pieces. */
  function ParseAllowList(setting: Option<string>): (allow: seq<string>)
    ensures setting == None || setting == Some("") ==> allow == []
    ensures setting.Some? && setting.value != "" ==>
      |allow| >= 1 && SeparatorFree(allow, Separator) && Join(allow, Separator) == setting.value
  {
    match setting
    case None => []
    case Some(s) =>
      if s == "" then []
      else SplitJoin(s, Separator); Split(s, Separator)
  }

  /** A non-empty setting has exactly one reading as a list of comma-free
      entries, and that is what the parser returns. */
  lemma ParseAllowListUnique(s: string, entries: seq<string>)
    requires s != ""
    requires |entries| >= 1 && SeparatorFree(entries, Separator)
    ensures ParseAllowList(Some(s)) == entries <==> Join(entries, Separator) == s
  {
    if Join(entries, Separator) == s {
      JoinSplit(entries, Separator);
    }
  }

  // ---------------------------------------------------------------------------
  // Python's str() of a user id
  // ---------------------------------------------------------------------------

  predicate IsDigit(c: char)
  {
    '0' <= c <= '9'
  }

  function DigitChar(d: nat): (c: char)
    requires d < 10
    ensures IsDigit(c)
  {
    ('0' as int + d) as char
  }

  function DigitValue(c: char): (d: nat)
    requires IsDigit(c)
    ensures d < 10
  {
    c as int - '0' as int
  }

  /** The decimal numeral of `n`, without leading zeros. */
  function NatToString(n: nat): (s: string)
    ensures |s| >= 1
    ensures forall i :: 0 <= i < |s| ==> IsDigit(s[i])
    ensures n >= 1 ==> s[0] != '0'
    decreases n
  {
    if n < 10 then [DigitChar(n)]
    else NatToString(n / 10) + [DigitChar(n % 10)]
  }

  /** `str(n)` for a Python int: a minus sign in front of negative numbers. */
  function IntToString(n: int): (s: string)
    ensures |s| >= 1
    ensures s[0] == '-' <==> n < 0
    ensures forall i :: 0 < i < |s| ==> IsDigit(s[i])
    // the canonical form: no leading zero, and no "-0"
    ensures s[0] == '0' ==> s == "0"
    ensures n < 0 ==> |s| >= 2 && s[1] != '0'
  {
    if n < 0 then "-" + NatToString(-n) else NatToString(n)
  }

  /** The value of a decimal numeral. */
  function DecimalValue(s: string): (value: nat)
    requires forall i :: 0 <= i < |s| ==> IsDigit(s[i])
    decreases |s|
  {
    if |s| == 0 then 0
    else DecimalValue(s[..|s| - 1]) * 10 + DigitValue(s[|s| - 1])
  }

  /** Reading back the numeral of `n` gives `n`. */
  lemma {:induction false} DecimalRoundTrip(n: nat)
    ensures DecimalValue(NatToString(n)) == n
    decreases n
  {
    var s := NatToString(n);
    if n >= 10 {
      DecimalRoundTrip(n / 10);
      assert s[..|s| - 1] == NatToString(n / 10);
      assert DigitValue(s[|s| - 1]) == n % 10;
    } else {
      assert s[..0] == [];
    }
  }

  /** Distinct users have distinct id strings. */
  lemma IdStringInjective(a: int, b: int)
    requires IntToString(a) == IntToString(b)
    ensures a == b
  {
    if a < 0 && b < 0 {
      NegativeIdString(a);
      NegativeIdString(b);
      DecimalRoundTrip(-a);
      DecimalRoundTrip(-b);
    } else if a < 0 {
      NegativeIdString(a);
    } else if b < 0 {
      NegativeIdString(b);
    } else {
      DecimalRoundTrip(a);
      DecimalRoundTrip(b);
    }
  }

  /** The id string of a negative number is a minus sign and a numeral. */
  lemma NegativeIdString(n: int)
    requires n < 0
    ensures |IntToString(n)| >= 2 && IntToString(n)[0] == '-'
    ensures IntToString(n)[1..] == NatToString(-n)
  {
  }

  /** The id string is the decimal numeral of the id, behind a minus sign
      when the id is negative. */
  lemma IdStringValue(n: int)
    ensures n >= 0 ==> DecimalValue(IntToString(n)) == n
    ensures n < 0 ==> DecimalValue(IntToString(n)[1..]) == -n
  {
    if n >= 0 {
      DecimalRoundTrip(n);
    } else {
      NegativeIdString(n);
      DecimalRoundTrip(-n);
    }
  }

  // ---------------------------------------------------------------------------
  // The `restricted` guard
  // ---------------------------------------------------------------------------

  /** bot.py:19-20: the wrapped handler runs unless the allow-list is non-empty
      and the user's id string is not one of its entries. */
  predicate Authorized(allow: seq<string>, userId: int)
  {
    !(allow != [] && IntToString(userId) !in allow)
  }

  /** An empty allow-list — an unset or empty setting — admits every user. */
  lemma UnrestrictedAdmitsEveryone(setting: Option<string>, userId: int)
    requires setting == None || setting == Some("")
    ensures Authorized(ParseAllowList(setting), userId)
  {
  }

  /** A non-empty allow-list admits a user exactly when some entry equals the
      user's id string. */
  lemma RestrictedAdmitsListedOnly(allow: seq<string>, userId: int)
    requires allow != []
    ensures Authorized(allow, userId) <==>
      exists i :: 0 <= i < |allow| && allow[i] == IntToString(userId)
  {
  }

  /** An allow-list with one user's id admits that user and nobody else. */
  lemma SingleEntryAdmitsOnlyThatUser(owner: int, userId: int)
    ensures Authorized([IntToString(owner)], userId) <==> userId == owner
  {
    if Authorized([IntToString(owner)], userId) {
      IdStringInjective(owner, userId);
    }
  }

  /** An allow-list made of the id strings of some users admits exactly
      those users. */
  lemma ListedUsersAdmitted(ids: seq<int>, userId: int)
    requires |ids| >= 1
    ensures Authorized(seq(|ids|, i requires 0 <= i < |ids| => IntToString(ids[i])), userId) <==> userId in ids
  {
    var allow := seq(|ids|, i requires 0 <= i < |ids| => IntToString(ids[i]));
    if Authorized(allow, userId) {
      var i :| 0 <= i < |allow| && allow[i] == IntToString(userId);
      IdStringInjective(ids[i], userId);
    }
    if userId in ids {
      var i :| 0 <= i < |ids| && ids[i] == userId;
      assert allow[i] == IntToString(userId);
    }
  }

  /** Entries are compared as written: an entry that is not a plain decimal
      numeral (a blank after a comma, say) matches no user, so a list made only
      of such entries locks everybody out. */
  lemma ForeignCharacterEntriesAdmitNobody(allow: seq<string>, userId: int)
    requires allow != []
    requires forall i :: 0 <= i < |allow| ==> exists k :: 0 <= k < |allow[i]| && !IsDigit(allow[i][k]) && allow[i][k] != '-'
    ensures !Authorized(allow, userId)
  {
  }

  /** The setting "12, 34" is not trimmed: user 12 is admitted but user 34 is
      not, because the second entry is " 34". */
  lemma BlankAfterCommaIsKept()
    ensures ParseAllowList(Some("12, 34")) == ["12", " 34"]
    ensures Authorized(ParseAllowList(Some("12, 34")), 12)
    ensures !Authorized(ParseAllowList(Some("12, 34")), 34)
  {
    var entries := ["12", " 34"];
    assert Join(entries, Separator) == "12, 34";
    assert SeparatorFree(entries, Separator);
    JoinSplit(entries, Separator);
    assert IntToString(12) == "12";
    assert IntToString(34) == "34";
  }
}
