/** The Google Calendar "create event" link built for each parsed work block. Dates come
    in as ISO-8601 strings (the output of `Date.toISOString`). */
module CalendarUrl {
  import opened Imaging

  /** The characters the date formatter deletes: dash, colon and full stop. */
  predicate IsSeparator(c: char)
  {
    c == '-' || c == ':' || c == '.'
  }

  /** `s` with every separator deleted (the global regular-expression replace). */
  function Strip(s: string): (r: string)
    ensures NoSeparators(r)
    ensures |r| <= |s|
    decreases |s|
  {
    if s == [] then []
    else if IsSeparator(s[0]) then Strip(s[1..])
    else [s[0]] + Strip(s[1..])
  }

  /** Stripping distributes over concatenation, so it keeps every other character, in order. */
  lemma {:induction false} StripConcat(a: string, b: string)
    ensures Strip(a + b) == Strip(a) + Strip(b)
    decreases |a|
  {
    if a == [] {
      assert a + b == b;
    } else {
      assert (a + b)[0] == a[0] && (a + b)[1..] == a[1..] + b;
      StripConcat(a[1..], b);
    }
  }

  /** A string without separators is left unchanged, and only such a string. */
  lemma {:induction false} StripIdentity(s: string)
    ensures Strip(s) == s <==> NoSeparators(s)
    decreases |s|
  {
    if s != [] {
      StripIdentity(s[1..]);
      if IsSeparator(s[0]) {
        assert |Strip(s)| < |s| by {
          assert Strip(s) == Strip(s[1..]);
        }
      } else {
        assert forall i :: 0 <= i < |s[1..]| ==> s[1..][i] == s[i + 1];
      }
    }
  }

  /** Stripping twice is stripping once. */
  lemma StripIdempotent(s: string)
    ensures Strip(Strip(s)) == Strip(s)
  {
    StripIdentity(Strip(s));
  }

  /** The number of times `c` occurs in `s`. */
  function Count(s: string, c: char): nat
    decreases |s|
  {
    if s == [] then 0 else (if s[0] == c then 1 else 0) + Count(s[1..], c)
  }

  /** Stripping removes every separator and keeps every other character as often as it
      occurs. */
  lemma {:induction false} StripCounts(s: string, c: char)
    ensures Count(Strip(s), c) == if IsSeparator(c) then 0 else Count(s, c)
    decreases |s|
  {
    if s != [] {
      StripCounts(s[1..], c);
      if !IsSeparator(s[0]) {
        assert ([s[0]] + Strip(s[1..]))[1..] == Strip(s[1..]);
      }
    }
  }

  /** The `dates` parameter: both stripped timestamps joined by a slash. */
  function DatesToUrlParam(startIso: string, endIso: string): (r: string)
    ensures |r| == |Strip(startIso)| + 1 + |Strip(endIso)|
    ensures r[|Strip(startIso)|] == '/'
    ensures r[..|Strip(startIso)|] == Strip(startIso) && r[|Strip(startIso)| + 1..] == Strip(endIso)
  {
    Strip(startIso) + "/" + Strip(endIso)
  }

  /** The first index of `c` in `s`, if any. */
  function IndexOf(s: string, c: char): (r: Option<nat>)
    ensures r.None? ==> forall i :: 0 <= i < |s| ==> s[i] != c
    ensures r.Some? ==> r.value < |s| && s[r.value] == c && forall i :: 0 <= i < r.value ==> s[i] != c
    decreases |s|
  {
    if s == [] then None
    else if s[0] == c then Some(0)
    else match IndexOf(s[1..], c)
      case None => None
      case Some(i) => Some(i + 1)
  }

  /** Splits a `dates` parameter at its first slash. */
  function SplitDates(p: string): Option<(string, string)>
  {
    match IndexOf(p, '/')
    case None => None
    case Some(i) => Some((p[..i], p[i + 1..]))
  }

  /** The `dates` parameter can be read back: when the start timestamp holds no slash (an
      ISO timestamp never does), splitting at the first slash gives the two stripped
      timestamps. */
  lemma DatesRoundTrip(startIso: string, endIso: string)
    requires forall i :: 0 <= i < |startIso| ==> startIso[i] != '/'
    ensures SplitDates(DatesToUrlParam(startIso, endIso)) == Some((Strip(startIso), Strip(endIso)))
  {
    var p := DatesToUrlParam(startIso, endIso);
    var n := |Strip(startIso)|;
    StripCounts(startIso, '/');
    forall i | 0 <= i < n
      ensures p[i] != '/'
    {
      if p[i] == '/' {
        CountPositive(Strip(startIso), i, '/');
        CountZero(startIso, '/');
      }
    }
    assert IndexOf(p, '/') == Some(n);
  }

  lemma {:induction false} CountPositive(s: string, i: int, c: char)
    requires 0 <= i < |s| && s[i] == c
    ensures Count(s, c) > 0
    decreases |s|
  {
    if i > 0 {
      CountPositive(s[1..], i - 1, c);
    }
  }

  lemma {:induction false} CountZero(s: string, c: char)
    requires forall i :: 0 <= i < |s| ==> s[i] != c
    ensures Count(s, c) == 0
    decreases |s|
  {
    if s != [] {
      CountZero(s[1..], c);
    }
  }

  predicate NoSeparators(s: string)
  {
    forall i :: 0 <= i < |s| ==> !IsSeparator(s[i])
  }

  /** The extended ISO-8601 form `toISOString` produces, `YYYY-MM-DDTHH:mm:ss.sssZ`. */
  function IsoTimestamp(year: string, month: string, day: string, hour: string, minute: string,
                        second: string, millis: string): string
  {
    year + "-" + month + "-" + day + "T" + hour + ":" + minute + ":" + second + "." + millis + "Z"
  }

  /** Stripping turns an extended ISO timestamp into the basic form `YYYYMMDDTHHmmsssssZ`:
      only the separators go, the fields stay in order. */
  lemma StripIsoTimestamp(year: string, month: string, day: string, hour: string, minute: string,
                          second: string, millis: string)
    requires NoSeparators(year) && NoSeparators(month) && NoSeparators(day) && NoSeparators(hour)
    requires NoSeparators(minute) && NoSeparators(second) && NoSeparators(millis)
    ensures Strip(IsoTimestamp(year, month, day, hour, minute, second, millis))
      == year + month + day + "T" + hour + minute + second + millis + "Z"
  {
    StripIdentity(year);
    StripIdentity(month);
    StripIdentity(day);
    StripIdentity(hour);
    StripIdentity(minute);
    StripIdentity(second);
    StripIdentity(millis);
    assert Strip("-") == Strip(":") == Strip(".") == [];
    assert Strip("T") == "T" && Strip("Z") == "Z";
    var p1, e := year + "-", year;
    StripConcat(year, "-");
    assert Strip(p1) == e;
    var p2 := p1 + month;
    StripConcat(p1, month);
    e := e + month;
    assert Strip(p2) == e;
    var p3 := p2 + "-";
    StripConcat(p2, "-");
    assert Strip(p3) == e;
    var p4 := p3 + day;
    StripConcat(p3, day);
    e := e + day;
    assert Strip(p4) == e;
    var p5 := p4 + "T";
    StripConcat(p4, "T");
    e := e + "T";
    assert Strip(p5) == e;
    var p6 := p5 + hour;
    StripConcat(p5, hour);
    e := e + hour;
    assert Strip(p6) == e;
    var p7 := p6 + ":";
    StripConcat(p6, ":");
    assert Strip(p7) == e;
    var p8 := p7 + minute;
    StripConcat(p7, minute);
    e := e + minute;
    assert Strip(p8) == e;
    var p9 := p8 + ":";
    StripConcat(p8, ":");
    assert Strip(p9) == e;
    var p10 := p9 + second;
    StripConcat(p9, second);
    e := e + second;
    assert Strip(p10) == e;
    var p11 := p10 + ".";
    StripConcat(p10, ".");
    assert Strip(p11) == e;
    var p12 := p11 + millis;
    StripConcat(p11, millis);
    e := e + millis;
    assert Strip(p12) == e;
    StripConcat(p12, "Z");
  }

  /** The `dates` parameter of a block from 9:00 to 10:30 on 2 January 2023. */
  lemma DatesExample()
    ensures DatesToUrlParam(IsoTimestamp("2023", "01", "02", "09", "00", "00", "000"),
                            IsoTimestamp("2023", "01", "02", "10", "30", "00", "000"))
      == ("2023" + "01" + "02" + "T" + "09" + "00" + "00" + "000" + "Z") + "/"
         + ("2023" + "01" + "02" + "T" + "10" + "30" + "00" + "000" + "Z")
  {
    var start := IsoTimestamp("2023", "01", "02", "09", "00", "00", "000");
    var end := IsoTimestamp("2023", "01", "02", "10", "30", "00", "000");
    var basicStart := "2023" + "01" + "02" + "T" + "09" + "00" + "00" + "000" + "Z";
    var basicEnd := "2023" + "01" + "02" + "T" + "10" + "30" + "00" + "000" + "Z";
    assert Strip(start) == basicStart by {
      StripIsoTimestamp("2023", "01", "02", "09", "00", "00", "000");
    }
    assert Strip(end) == basicEnd by {
      StripIsoTimestamp("2023", "01", "02", "10", "30", "00", "000");
    }
    assert DatesToUrlParam(start, end) == basicStart + "/" + basicEnd;
  }

  /** The address of the event editor. */
  const Endpoint: string := "https://calendar.google.com/calendar/u/0/r/eventedit?"

  /** An optional query parameter: present only for a defined, non-empty value (the
      template tests the value's truthiness). */
  function OptionalParam(name: string, value: Option<string>): (r: string)
    ensures r == [] <==> value.None? || value.value == []
    ensures value.Some? && value.value != [] ==> r == "&" + name + "=" + value.value
  {
    if value.Some? && value.value != [] then "&" + name + "=" + value.value else ""
  }

  /** The event-editor link: the endpoint, the title as `text`, the dates, then `details`
      and `location` when given. Values are inserted as they are, without URL encoding. */
  function GenerateGoogleCalUrl(startIso: string, endIso: string, title: string,
                                details: Option<string>, location: Option<string>): (url: string)
    ensures |Endpoint| <= |url| && url[..|Endpoint|] == Endpoint
  {
    Endpoint + "text=" + title + "&dates=" + DatesToUrlParam(startIso, endIso)
      + OptionalParam("details", details) + OptionalParam("location", location)
  }

  /** The link starts with the endpoint, then the title, then the dates parameter; without
      details and location it ends there. */
  lemma UrlLayout(startIso: string, endIso: string, title: string,
                  details: Option<string>, location: Option<string>)
    ensures var url := GenerateGoogleCalUrl(startIso, endIso, title, details, location);
      var head := Endpoint + "text=" + title + "&dates=" + DatesToUrlParam(startIso, endIso);
      && |head| <= |url| && url[..|head|] == head
      && url[..|Endpoint|] == Endpoint
      && (OptionalParam("details", details) == [] && OptionalParam("location", location) == [] ==> url == head)
  {
    ConcatLayout(Endpoint, "text=", title, "&dates=", DatesToUrlParam(startIso, endIso),
                 OptionalParam("details", details), OptionalParam("location", location));
  }

  /** `UrlLayout` for any seven pieces. */
  lemma ConcatLayout(a: string, b: string, c: string, d: string, e: string, f: string, g: string)
    ensures var url := a + b + c + d + e + f + g;
      var head := a + b + c + d + e;
      && |head| <= |url| && url[..|head|] == head
      && url[..|a|] == a
      && (f == [] && g == [] ==> url == head)
  {
    var head := a + b + c + d + e;
    assert a + b + c + d + e + f + g == head + (f + g);
    assert head == a + (b + c + d + e);
  }

  /** An empty details or location string is treated exactly like a missing one. */
  lemma EmptyParamIsAbsent(startIso: string, endIso: string, title: string,
                           details: Option<string>, location: Option<string>)
    ensures GenerateGoogleCalUrl(startIso, endIso, title, Some(""), location)
      == GenerateGoogleCalUrl(startIso, endIso, title, None, location)
    ensures GenerateGoogleCalUrl(startIso, endIso, title, details, Some(""))
      == GenerateGoogleCalUrl(startIso, endIso, title, details, None)
  {
  }

  /** What each parsed work block becomes. */
  datatype CalendarEvent = CalendarEvent(title: string, description: string, googleCreateEventUrl: string,
                                         startIso: string, endIso: string)

  const EventTitle: string := "Work"
  const EventDescription: string := "Automatically parsed from picture, hopefully dates are correct..."

  /** The event for one block: fixed title and description, and the link built with the
      description as details and no location. */
  function BuildEvent(startIso: string, endIso: string): (e: CalendarEvent)
    ensures e.title == EventTitle && e.description == EventDescription
    ensures e.startIso == startIso && e.endIso == endIso
    ensures |Endpoint| <= |e.googleCreateEventUrl| && e.googleCreateEventUrl[..|Endpoint|] == Endpoint
  {
    CalendarEvent(EventTitle, EventDescription,
                  GenerateGoogleCalUrl(startIso, endIso, EventTitle, Some(EventDescription), None),
                  startIso, endIso)
  }

  /** With non-empty details and no location, the link is the head followed by the
      `details` parameter. */
  lemma UrlWithDetails(startIso: string, endIso: string, title: string, details: string)
    requires details != []
    ensures GenerateGoogleCalUrl(startIso, endIso, title, Some(details), None)
      == Endpoint + "text=" + title + "&dates=" + Strip(startIso) + "/" + Strip(endIso)
         + "&details=" + details
  {
    assert OptionalParam("details", Some(details)) == "&details=" + details by {
      assert "&" + "details" + "=" == "&details=";
    }
  }

  /** Every event link carries the title `Work`, the two stripped timestamps and the fixed
      description, and ends with that description (there is never a location). */
  lemma EventUrl(startIso: string, endIso: string)
    ensures var e := BuildEvent(startIso, endIso);
      && e.title == EventTitle && e.description == EventDescription
      && e.googleCreateEventUrl
         == Endpoint + "text=" + EventTitle + "&dates=" + Strip(startIso) + "/" + Strip(endIso)
            + "&details=" + EventDescription
  {
    assert EventDescription != [];
    UrlWithDetails(startIso, endIso, EventTitle, EventDescription);
  }
}
