/** The attendee record (Models/AttendeeInfo.cs) and its `Initials` getter. */
module AttendeeModel {
  import opened Optional
  import opened Ascii
  import opened Clock

  datatype AttendeeInfo = AttendeeInfo(
    Id: int,
    EventId: int,
    FullName: string,
    Email: string,
    Phone: string,
    NumberOfAttendees: int,
    RegistrationDate: Instant,
    SessionId: string,
    CheckedIn: bool,
    CheckInTime: Option<Instant>)

  /** `new AttendeeInfo()`: empty strings, zero numbers, `default(DateTime)` (tick
      0), not checked in and no check-in time. */
  const DefaultAttendee: AttendeeInfo :=
    AttendeeInfo(0, 0, "", "", "", 0, 0, "", false, None)

  // ---------------------------------------------------------------------------
  // Splitting a name on the space character, dropping empty parts
  // (`Split(' ', StringSplitOptions.RemoveEmptyEntries)`).

  /** Length of the leading run of non-space characters. */
  function WordLength(s: string): (k: nat)
    ensures k <= |s|
    ensures forall i | 0 <= i < k :: s[i] != ' '
    ensures k < |s| ==> s[k] == ' '
  {
    if |s| == 0 || s[0] == ' ' then 0 else 1 + WordLength(s[1..])
  }

  function SplitOnSpace(s: string): (parts: seq<string>)
    ensures forall j | 0 <= j < |parts| :: |parts[j]| > 0 && ' ' !in parts[j]
    decreases |s|
  {
    if |s| == 0 then []
    else if s[0] == ' ' then SplitOnSpace(s[1..])
    else
      var k := WordLength(s);
      [s[..k]] + SplitOnSpace(s[k..])
  }

  /** Position `i` begins a part: a non-space character at the front of the name
      or right after a space. Only ' ' separates: a tab is part of a word. */
  predicate IsWordStart(s: string, i: int)
  {
    0 <= i < |s| && s[i] != ' ' && (i == 0 || s[i - 1] == ' ')
  }

  predicate AllSpaces(s: string)
  {
    forall i | 0 <= i < |s| :: s[i] == ' '
  }

  /** `f` is the first non-space position: where the first part begins. */
  predicate IsFirstWordStart(s: string, f: int)
  {
    0 <= f < |s| && s[f] != ' ' && forall i | 0 <= i < f :: s[i] == ' '
  }

  /** `l` is where the last part begins. */
  predicate IsLastWordStart(s: string, l: int)
  {
    IsWordStart(s, l) && forall j | l < j < |s| :: !IsWordStart(s, j)
  }

  /** Past a leading space, word starts shift by one. */
  lemma WordStartsAfterSpace(s: string)
    requires |s| > 0 && s[0] == ' '
    ensures !IsWordStart(s, 0)
    ensures forall i | 0 < i < |s| :: IsWordStart(s, i) <==> IsWordStart(s[1..], i - 1)
  {
  }

  /** Past a leading word of length `k`, the word starts other than 0 are those of
      the remainder, shifted by `k`; the remainder itself starts with a space. */
  lemma WordStartsAfterWord(s: string, k: nat)
    requires 0 < k <= |s|
    requires forall j | 0 <= j < k :: s[j] != ' '
    requires k < |s| ==> s[k] == ' '
    ensures forall i | 0 < i < |s| :: IsWordStart(s, i) <==> i > k && IsWordStart(s[k..], i - k)
    ensures !IsWordStart(s[k..], 0)
  {
    var t := s[k..];
    forall i | 0 < i < |s|
      ensures IsWordStart(s, i) <==> i > k && IsWordStart(t, i - k)
    {
      if i < k {
        assert s[i - 1] != ' ';
      } else if i > k {
        assert t[i - k] == s[i];
        assert t[i - k - 1] == s[i - 1];
      }
    }
  }

  lemma {:induction false} NoWordStartAllSpaces(s: string)
    requires forall j | 0 <= j < |s| :: !IsWordStart(s, j)
    ensures AllSpaces(s)
    decreases |s|
  {
    if |s| > 0 {
      assert !IsWordStart(s, 0);
      WordStartsAfterSpace(s);
      forall j | 0 <= j < |s| - 1
        ensures !IsWordStart(s[1..], j)
      {
        assert !IsWordStart(s, j + 1);
      }
      NoWordStartAllSpaces(s[1..]);
    }
  }

  lemma {:induction false} SplitEmpty(s: string)
    ensures SplitOnSpace(s) == [] <==> AllSpaces(s)
    decreases |s|
  {
    if |s| > 0 && s[0] == ' ' {
      SplitEmpty(s[1..]);
    }
  }

  /** The first part begins at the first non-space character. */
  lemma {:induction false} SplitFirst(s: string, f: int)
    requires IsFirstWordStart(s, f)
    ensures |SplitOnSpace(s)| > 0 && SplitOnSpace(s)[0][0] == s[f]
    decreases |s|
  {
    if s[0] == ' ' {
      SplitFirst(s[1..], f - 1);
    }
  }

  /** The last part begins at the last word start, and it is the only part exactly
      when nothing but spaces precede it. */
  lemma {:induction false} SplitLast(s: string, l: int)
    requires IsLastWordStart(s, l)
    ensures |SplitOnSpace(s)| > 0
    ensures SplitOnSpace(s)[|SplitOnSpace(s)| - 1][0] == s[l]
    ensures |SplitOnSpace(s)| == 1 <==> forall i | 0 <= i < l :: s[i] == ' '
    decreases |s|, 1
  {
    if s[0] == ' ' {
      SplitLastAfterSpace(s, l);
    } else {
      SplitLastAfterWord(s, l);
    }
  }

  lemma {:induction false} SplitLastAfterSpace(s: string, l: int)
    requires IsLastWordStart(s, l) && s[0] == ' '
    ensures |SplitOnSpace(s)| > 0
    ensures SplitOnSpace(s)[|SplitOnSpace(s)| - 1][0] == s[l]
    ensures |SplitOnSpace(s)| == 1 <==> forall i | 0 <= i < l :: s[i] == ' '
    decreases |s|, 0
  {
    var t := s[1..];
    assert SplitOnSpace(s) == SplitOnSpace(t);
    WordStartsAfterSpace(s);
    forall j | l - 1 < j < |t|
      ensures !IsWordStart(t, j)
    {
      assert !IsWordStart(s, j + 1);
    }
    assert IsLastWordStart(t, l - 1);
    SplitLast(t, l - 1);
    assert (forall i | 0 <= i < l - 1 :: t[i] == ' ') <==> (forall i | 0 <= i < l :: s[i] == ' ') by {
      if forall i | 0 <= i < l - 1 :: t[i] == ' ' {
        forall i | 0 <= i < l
          ensures s[i] == ' '
        {
          if i > 0 {
            assert t[i - 1] == s[i];
          }
        }
      }
    }
  }

  lemma {:induction false} SplitLastAfterWord(s: string, l: int)
    requires IsLastWordStart(s, l) && s[0] != ' '
    ensures |SplitOnSpace(s)| > 0
    ensures SplitOnSpace(s)[|SplitOnSpace(s)| - 1][0] == s[l]
    ensures |SplitOnSpace(s)| == 1 <==> forall i | 0 <= i < l :: s[i] == ' '
    decreases |s|, 0
  {
    var k := WordLength(s);
    var r := s[k..];
    assert SplitOnSpace(s) == [s[..k]] + SplitOnSpace(r);
    WordStartsAfterWord(s, k);
    if exists j :: IsWordStart(r, j) {
      var j :| IsWordStart(r, j);
      assert IsWordStart(s, k + j);
      assert l > k;
      forall j | l - k < j < |r|
        ensures !IsWordStart(r, j)
      {
        assert !IsWordStart(s, k + j);
      }
      assert IsLastWordStart(r, l - k);
      SplitLast(r, l - k);
      assert s[l] == r[l - k];
    } else {
      NoWordStartAllSpaces(r);
      SplitEmpty(r);
      assert l == 0;
    }
  }

  /** A name that is not all spaces has a first and a last part. */
  lemma {:induction false} WordStartsExist(s: string)
    requires !AllSpaces(s)
    ensures exists f :: IsFirstWordStart(s, f)
    ensures exists l :: IsLastWordStart(s, l)
    decreases |s|
  {
    if s[0] == ' ' {
      WordStartsAfterSpace(s);
      WordStartsExist(s[1..]);
      var f :| IsFirstWordStart(s[1..], f);
      assert IsFirstWordStart(s, f + 1);
      var l :| IsLastWordStart(s[1..], l);
      assert IsLastWordStart(s, l + 1);
    } else {
      assert IsFirstWordStart(s, 0);
      var k := WordLength(s);
      var r := s[k..];
      WordStartsAfterWord(s, k);
      if AllSpaces(r) {
        assert IsLastWordStart(s, 0);
      } else {
        WordStartsExist(r);
        var l :| IsLastWordStart(r, l);
        assert IsLastWordStart(s, k + l);
      }
    }
  }

  /** The first and last parts begin at the same place exactly when only spaces
      precede the last one. */
  lemma FirstLastSame(s: string, f: int, l: int)
    requires IsFirstWordStart(s, f) && IsLastWordStart(s, l)
    ensures f == l <==> forall i | 0 <= i < l :: s[i] == ' '
  {
  }

  /** The `Initials` getter on a name. With two or more parts: the first character
      of the first part and of the last part, upper-cased; with one part: its first
      character upper-cased; with none (an empty or all-space name): "?". */
  function InitialsOf(fullName: string): (r: string)
    ensures |r| == 1 || |r| == 2
    ensures AllSpaces(fullName) ==> r == "?"
    ensures forall f, l | IsFirstWordStart(fullName, f) && IsLastWordStart(fullName, l) ::
      r == if f == l then [ToUpperChar(fullName[f])]
           else [ToUpperChar(fullName[f]), ToUpperChar(fullName[l])]
  {
    var parts := SplitOnSpace(fullName);
    SplitEmpty(fullName);
    var r :=
      if |parts| >= 2 then ToUpper([parts[0][0], parts[|parts| - 1][0]])
      else if |parts| > 0 then ToUpper([parts[0][0]])
      else "?";
    assert r == if |parts| >= 2 then [ToUpperChar(parts[0][0]), ToUpperChar(parts[|parts| - 1][0])]
                else if |parts| > 0 then [ToUpperChar(parts[0][0])]
                else "?";
    assert forall f, l | IsFirstWordStart(fullName, f) && IsLastWordStart(fullName, l) ::
      r == if f == l then [ToUpperChar(fullName[f])]
           else [ToUpperChar(fullName[f]), ToUpperChar(fullName[l])] by {
      forall f, l | IsFirstWordStart(fullName, f) && IsLastWordStart(fullName, l)
        ensures r == if f == l then [ToUpperChar(fullName[f])]
                     else [ToUpperChar(fullName[f]), ToUpperChar(fullName[l])]
      {
        SplitFirst(fullName, f);
        SplitLast(fullName, l);
        FirstLastSame(fullName, f, l);
      }
    }
    r
  }

  /** The `Initials` getter: determined by the full name alone, as `InitialsOf`
      describes it. */
  function Initials(a: AttendeeInfo): (r: string)
    ensures |r| == 1 || |r| == 2
    ensures AllSpaces(a.FullName) ==> r == "?"
    ensures forall f, l | IsFirstWordStart(a.FullName, f) && IsLastWordStart(a.FullName, l) ::
      r == if f == l then [ToUpperChar(a.FullName[f])]
           else [ToUpperChar(a.FullName[f]), ToUpperChar(a.FullName[l])]
  {
    InitialsOf(a.FullName)
  }

  /** A new attendee record is not checked in, has no check-in time, no people
      and empty texts, so its avatar shows "?". */
  lemma NewAttendeeDefaults()
    ensures !DefaultAttendee.CheckedIn && DefaultAttendee.CheckInTime.None?
    ensures DefaultAttendee.NumberOfAttendees == 0
    ensures DefaultAttendee.FullName == "" && DefaultAttendee.Email == ""
    ensures DefaultAttendee.Phone == "" && DefaultAttendee.SessionId == ""
    ensures Initials(DefaultAttendee) == "?"
  {
  }

  /** Only the space character separates parts: a tab joins "ann\tlee" into one. */
  lemma TabIsNotASeparator()
    ensures InitialsOf("ann\tlee") == "A"
    ensures InitialsOf(" ann  lee ") == "AL"
    ensures InitialsOf("   ") == "?"
  {
    assert IsFirstWordStart("ann\tlee", 0) && IsLastWordStart("ann\tlee", 0);
    assert IsFirstWordStart(" ann  lee ", 1) && IsLastWordStart(" ann  lee ", 6);
  }
}
