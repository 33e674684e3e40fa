// The multipart/form-data parser (section 5.1.1 of RFC 2046, section 4 of RFC 7578): the state
// machine on values, the class that runs it over an in-place window, and the client's printer.

module Multipart {
  import opened Text
  import opened Splitting

  const DASH: string := "--"
  const CRLF_DASH: string := "\r\n--"
  const DASH_CRLF: string := "--\r\n"

  datatype FormData = FormData(name: string, content: string, filename: string, contentType: string)

  const NO_FILE := FormData("", "", "", "")

  // What one pass over the input does: the two callbacks, and the bytes erased between them.
  datatype Event =
    | Header(file: FormData)
    | Content(data: string)
    | Drop(bytes: string)

  // The callbacks' answer to the latest event, given everything that happened before it.
  type Callbacks = seq<Event> -> bool

  datatype Machine = Machine(state: nat, valid: bool, file: FormData, window: string)

  datatype Outcome = Outcome(m: Machine, ok: bool, log: seq<Event>)

  const START := Machine(0, false, NO_FILE, "")

  // ------------------------------------------------------------------------------------------
  // Header lines.  The Content-Disposition pattern is matched with the backtracking order of the
  // regular expression: the shortest name, then the shortest filename, then the optional filename*.

  function SkipSpaces(s: string): (r: string)
    ensures |r| <= |s|
  {
    if s != "" && IsSpace(s[0]) then SkipSpaces(s[1..]) else s
  }

  function AfterNoCase(s: string, lit: string): (r: seq<string>)
  {
    if StartsNoCase(s, lit) then [s[|lit|..]] else []
  }

  function SkipWord(s: string): (r: string)
    ensures |r| <= |s|
  {
    if s != "" && !IsSpace(s[0]) then SkipWord(s[1..]) else s
  }

  // \S+\s*$
  predicate WordThenSpaces(s: string) {
    s != "" && !IsSpace(s[0]) && SkipSpaces(SkipWord(s)) == ""
  }

  // (?:;\s*filename\*=\S+)?\s*$
  predicate DispositionEnd(s: string) {
    || SkipSpaces(s) == ""
    || (StartsNoCase(s, ";") &&
        var u := AfterNoCase(SkipSpaces(s[1..]), "filename*=");
        u != [] && WordThenSpaces(u[0]))
  }

  // (.*?)" followed by DispositionEnd, the quoted text running from 0 to at least i.
  function QuotedFilename(s: string, i: nat): (r: seq<string>)
    requires i <= |s|
    decreases |s| - i
  {
    if i == |s| then []
    else if s[i] == '"' && DispositionEnd(s[i + 1..]) then [s[..i]]
    else if s[i] == '\r' || s[i] == '\n' then []
    else QuotedFilename(s, i + 1)
  }

  // (?:;\s*filename="(.*?)")?(?:;\s*filename\*=\S+)?\s*$ : the captured filename, "" when absent.
  function DispositionTail(s: string): (r: seq<string>) {
    var quoted :=
      if StartsNoCase(s, ";") then
        var u := AfterNoCase(SkipSpaces(s[1..]), "filename=\"");
        if u == [] then [] else QuotedFilename(u[0], 0)
      else [];
    if quoted != [] then quoted else if DispositionEnd(s) then [""] else []
  }

  // (.*?)" followed by DispositionTail.
  function QuotedName(s: string, i: nat): (r: seq<(string, string)>)
    requires i <= |s|
    decreases |s| - i
  {
    if i == |s| then []
    else if s[i] == '"' && DispositionTail(s[i + 1..]) != [] then
      [(s[..i], DispositionTail(s[i + 1..])[0])]
    else if s[i] == '\r' || s[i] == '\n' then []
    else QuotedName(s, i + 1)
  }

  function MatchDisposition(line: string): (r: seq<(string, string)>) {
    var a := AfterNoCase(line, "Content-Disposition:");
    if a == [] then [] else
    var b := AfterNoCase(SkipSpaces(a[0]), "form-data;");
    if b == [] then [] else
    var c := AfterNoCase(SkipSpaces(b[0]), "name=\"");
    if c == [] then [] else QuotedName(c[0], 0)
  }

  function HeaderLine(file: FormData, line: string): FormData {
    var contentType := AfterNoCase(line, "content-type:");
    if contentType != [] then file.(contentType := TrimCopy(contentType[0]))
    else
      var m := MatchDisposition(line);
      if m != [] then file.(name := m[0].0, filename := m[0].1) else file
  }

  // ------------------------------------------------------------------------------------------
  // The machine

  function Delimiter(boundary: string): string { CRLF_DASH + boundary }

  // State 2, from a window position where a header line starts.
  function Headers(m: Machine, accept: Callbacks, log: seq<Event>): (o: Outcome)
    requires m.state == 2
    ensures o.m.state == 2 || (o.m.state == 3 && o.ok && |o.m.window| < |m.window|)
    decreases |m.window|
  {
    var pos := Find(m.window, CRLF);
    if pos == |m.window| then Outcome(m, true, log)
    else if pos == 0 then
      var log' := log + [Header(m.file)];
      if !accept(log') then Outcome(m.(valid := false), false, log')
      else Outcome(m.(state := 3, window := m.window[|CRLF|..]), true, log' + [Drop(CRLF)])
    else
      Headers(m.(file := HeaderLine(m.file, m.window[..pos]), window := m.window[pos + |CRLF|..]),
              accept, log + [Drop(m.window[..pos + |CRLF|])])
  }

  // One turn of the parse loop: go round again, or return.
  datatype Turn = Again(next: Machine, log: seq<Event>) | Return(o: Outcome)

  function InitialBoundary(boundary: string, m: Machine, log: seq<Event>): Turn {
    var first := DASH + boundary + CRLF;
    if |first| > |m.window| then Return(Outcome(m, true, log))
    else if !(first <= m.window) then Return(Outcome(m, false, log))
    else Again(m.(state := 1, window := m.window[|first|..]), log + [Drop(first)])
  }

  function HeaderSection(m: Machine, accept: Callbacks, log: seq<Event>): Turn
    requires m.state == 2
  {
    if Find(m.window, CRLF) > HEADER_MAX then Return(Outcome(m, false, log))
    else
      var h := Headers(m, accept, log);
      if h.m.state == 3 then Again(h.m, h.log) else Return(h)
  }

  // First half of state 3: deliver everything before a CRLF "--".
  function BodyText(boundary: string, m: Machine, accept: Callbacks, log: seq<Event>): Turn {
    if |CRLF_DASH| > |m.window| then Return(Outcome(m, true, log))
    else
      var p := Find(m.window, CRLF_DASH);
      var log1 := log + [Content(m.window[..p])];
      if !accept(log1) then Return(Outcome(m.(valid := false), false, log1))
      else Candidate(boundary, m.(window := m.window[p..]), accept, log1)
  }

  // Second half: the window is empty or starts with CRLF "--".
  function Candidate(boundary: string, m: Machine, accept: Callbacks, log: seq<Event>): Turn {
    var delim := Delimiter(boundary);
    if |delim| > |m.window| then Return(Outcome(m, true, log))
    else
      var q := Find(m.window, delim);
      var found := q < |m.window|;
      var n := if found then q else |delim|;
      var log1 := log + [Content(m.window[..n])];
      if !accept(log1) then Return(Outcome(m.(valid := false), false, log1))
      else if found then
        Again(m.(state := 4, window := m.window[q + |delim|..]), log1 + [Drop(delim)])
      else
        Again(m.(window := m.window[n..]), log1)
  }

  function AfterBoundary(m: Machine, log: seq<Event>): Turn {
    if |CRLF| > |m.window| then Return(Outcome(m, true, log))
    else if CRLF <= m.window then
      Again(m.(state := 1, window := m.window[|CRLF|..]), log + [Drop(CRLF)])
    else if |DASH_CRLF| > |m.window| then Return(Outcome(m, true, log))
    else if DASH_CRLF <= m.window then
      Again(m.(state := 5, valid := true, window := m.window[|DASH_CRLF|..]), log + [Drop(DASH_CRLF)])
    else Return(Outcome(m, true, log))
  }

  function TakeTurn(boundary: string, m: Machine, accept: Callbacks, log: seq<Event>): (t: Turn)
    requires m.state <= 5 && m.window != ""
    ensures t.Again? ==> t.next.state <= 5 && |t.next.window| <= |m.window|
    ensures t.Again? ==> |t.next.window| < |m.window| || (m.state == 1 && t.next.state == 2)
    ensures t.Return? ==> t.o.m.state == m.state
  {
    match m.state
    case 0 => InitialBoundary(boundary, m, log)
    case 1 => Again(m.(state := 2, file := NO_FILE), log)
    case 2 => HeaderSection(m, accept, log)
    case 3 => BodyText(boundary, m, accept, log)
    case 4 => AfterBoundary(m, log)
    case _ => Return(Outcome(m.(valid := false), false, log))
  }

  // What is left of one parse call once its input is in the window.
  function Run(boundary: string, m: Machine, accept: Callbacks, log: seq<Event>): (o: Outcome)
    requires m.state <= 5
    ensures o.m.state <= 5
    decreases |m.window|, if m.state == 1 then 1 else 0
  {
    if m.window == "" then Outcome(m, true, log)
    else match TakeTurn(boundary, m, accept, log)
      case Return(o) => o
      case Again(next, log1) => Run(boundary, next, accept, log1)
  }

  // One call of parse on data; log is what earlier calls did.
  function ParseCall(boundary: string, m: Machine, accept: Callbacks, data: string, log: seq<Event>): (o: Outcome)
    requires m.state <= 5
    ensures o.m.state <= 5
  {
    Run(boundary, m.(window := m.window + data), accept, log)
  }

  // ------------------------------------------------------------------------------------------
  // The class

  class MultipartFormDataParser {
    var boundary: string
    var state: nat
    var isValid: bool
    var file: FormData
    var buf: array<char>
    var spos: nat
    var epos: nat

    ghost predicate Valid()
      reads this
    {
      spos <= epos <= buf.Length && state <= 5
    }

    function Window(): (w: string)
      requires Valid()
      reads this, buf
      ensures |w| == epos - spos
    {
      buf[spos..epos]
    }

    ghost function Value(): Machine
      requires Valid()
      reads this, buf
    {
      Machine(state, isValid, file, Window())
    }

    constructor (boundary: string)
      ensures Valid() && this.boundary == boundary && Value() == START && fresh(buf)
    {
      this.boundary := boundary;
      state, isValid, file := 0, false, NO_FILE;
      buf := new char[0];
      spos, epos := 0, 0;
    }

    method StartWith(p: string) returns (yes: bool)
      requires Valid()
      ensures yes <==> p <= Window()
    {
      if epos - spos < |p| { return false; }
      var i := 0;
      while i < |p|
        invariant i <= |p| && p[..i] == buf[spos..spos + i]
      {
        if buf[i + spos] != p[i] {
          assert Window()[i] != p[i];
          return false;
        }
        i := i + 1;
      }
      assert p[..|p|] == p && Window()[..|p|] == buf[spos..spos + |p|];
      return true;
    }

    method BufFind(p: string) returns (pos: nat)
      requires Valid() && p != ""
      ensures IsFirst(Window(), p, pos)
    {
      ghost var w := Window();
      var off := spos;
      while off < epos
        invariant spos <= off <= epos
        invariant forall i | 0 <= i < off - spos :: !OccursAt(w, p, i)
      {
        var at := off;
        while true
          invariant off <= at <= epos
          invariant forall i | 0 <= i < at - spos :: !OccursAt(w, p, i)
          decreases epos - at
        {
          if at == epos { return epos - spos; }
          if buf[at] == p[0] { break; }
          assert w[at - spos] != p[0];
          at := at + 1;
        }
        if |p| > epos - at { return epos - spos; }
        var i := 0;
        while i < |p| && buf[at + i] == p[i]
          invariant i <= |p| && p[..i] == w[at - spos..at - spos + i]
        {
          i := i + 1;
        }
        if i == |p| { return at - spos; }
        assert w[at - spos..at - spos + |p|][i] != p[i];
        off := at + 1;
      }
      return epos - spos;
    }

    // The overlapping left shift: the window slides to the front of the buffer.
    method ShiftToFront()
      requires Valid()
      modifies this`spos, this`epos, buf
      ensures Valid() && spos == 0 && Window() == old(Window())
    {
      ghost var w := Window();
      var remaining := epos - spos;
      if remaining > 0 && spos > 0 {
        for i := 0 to remaining
          invariant spos == old(spos) && epos == old(epos)
          invariant forall k | 0 <= k < i :: buf[k] == w[k]
          invariant forall k | i <= k < remaining :: buf[spos + k] == w[k]
        {
          buf[i] := buf[spos + i];
        }
      }
      spos, epos := 0, remaining;
    }

    // buf_.resize(size), which only ever grows the buffer here.
    method Resize(size: nat)
      requires Valid() && buf.Length < size
      modifies this`buf
      ensures Valid() && fresh(buf) && buf.Length == size
      ensures Window() == old(Window())
    {
      var bigger := new char[size];
      for i := 0 to buf.Length
        invariant buf == old(buf)
        invariant bigger[..i] == buf[..i]
      {
        bigger[i] := buf[i];
      }
      assert bigger[..epos] == buf[..epos];
      assert bigger[spos..epos] == bigger[..epos][spos..];
      assert buf[spos..epos] == buf[..epos][spos..];
      buf := bigger;
    }

    // The copying loop, once there is room behind a window at the front.
    method CopyBehind(data: string)
      requires Valid() && spos == 0 && epos + |data| <= buf.Length
      modifies this`epos, buf
      ensures Valid() && Window() == old(Window()) + data
    {
      ghost var w, at := Window(), epos;
      for i := 0 to |data|
        invariant epos == at && buf[..at] == w
        invariant buf[at..at + i] == data[..i]
      {
        buf[epos + i] := data[i];
        assert buf[at..at + (i + 1)] == buf[at..at + i] + [data[i]];
        assert data[..i + 1] == data[..i] + [data[i]];
      }
      epos := epos + |data|;
      assert buf[..epos] == buf[..at] + buf[at..epos];
    }

    method BufAppend(data: string)
      requires Valid()
      modifies this`spos, this`epos, this`buf, buf
      ensures Valid() && Window() == old(Window()) + data
      ensures buf == old(buf) || fresh(buf)
    {
      ShiftToFront();
      if epos + |data| > buf.Length { Resize(epos + |data|); }
      CopyBehind(data);
    }

    method BufErase(size: nat)
      requires Valid() && size <= epos - spos
      modifies this`spos
      ensures Valid() && Window() == old(Window())[size..]
    {
      spos := spos + size;
    }

    method TakeHeaderLine(ghost accept: Callbacks, pos: nat, log0: seq<Event>) returns (log: seq<Event>)
      requires Valid() && state == 2 && IsFirst(Window(), CRLF, pos) && 0 < pos < epos - spos
      modifies this`spos, this`file
      ensures Valid() && epos - spos < old(epos - spos)
      ensures Headers(old(Value()), accept, log0) == Headers(Value(), accept, log)
    {
      hide HeaderLine, OccursAt, FindFrom;
      FirstIsUnique(Window(), CRLF, pos, Find(Window(), CRLF));
      file := HeaderLine(file, Window()[..pos]);
      log := log0 + [Drop(Window()[..pos + |CRLF|])];
      BufErase(pos + |CRLF|);
    }

    method ReadHeaderLines(accept: Callbacks, log0: seq<Event>) returns (ok: bool, log: seq<Event>)
      requires Valid() && state == 2
      modifies this`spos, this`state, this`isValid, this`file
      ensures Valid() && Outcome(Value(), ok, log) == Headers(old(Value()), accept, log0)
    {
      hide HeaderLine, OccursAt, FindFrom;
      ghost var goal := Headers(Value(), accept, log0);
      log := log0;
      var pos: nat := BufFind(CRLF);
      while pos < epos - spos
        invariant Valid() && state == 2 && IsFirst(Window(), CRLF, pos)
        invariant Headers(Value(), accept, log) == goal
        decreases epos - spos
      {
        if pos == 0 {
          ok, log := EndHeaders(accept, log);
          return ok, log;
        }
        log := TakeHeaderLine(accept, pos, log);
        pos := BufFind(CRLF);
      }
      FirstIsUnique(Window(), CRLF, pos, Find(Window(), CRLF));
      return true, log;
    }

    // The empty line.
    method EndHeaders(accept: Callbacks, log0: seq<Event>) returns (ok: bool, log: seq<Event>)
      requires Valid() && state == 2 && epos - spos > 0 && IsFirst(Window(), CRLF, 0)
      modifies this`spos, this`state, this`isValid
      ensures Valid() && Outcome(Value(), ok, log) == Headers(old(Value()), accept, log0)
    {
      hide HeaderLine, FindFrom;
      FirstIsUnique(Window(), CRLF, 0, Find(Window(), CRLF));
      log := log0 + [Header(file)];
      if !accept(log) {
        isValid := false;
        return false, log;
      }
      BufErase(|CRLF|);
      state := 3;
      return true, log + [Drop(CRLF)];
    }

    // The six cases of the switch; more says whether the loop goes round again.

    method InitialBoundaryCase(log0: seq<Event>) returns (more: bool, ok: bool, log: seq<Event>)
      requires Valid()
      modifies this`spos, this`state
      ensures Valid() && (more ==> state == 1)
      ensures InitialBoundary(boundary, old(Value()), log0) ==
              if more then Again(Value(), log) else Return(Outcome(Value(), ok, log))
    {
      var first := DASH + boundary + CRLF;
      if |first| > epos - spos { return false, true, log0; }
      var yes := StartWith(first);
      if !yes { return false, false, log0; }
      BufErase(|first|);
      state := 1;
      return true, true, log0 + [Drop(first)];
    }

    method HeaderCase(accept: Callbacks, log0: seq<Event>) returns (more: bool, ok: bool, log: seq<Event>)
      requires Valid() && state == 2
      modifies this`spos, this`state, this`isValid, this`file
      ensures Valid()
      ensures HeaderSection(old(Value()), accept, log0) ==
              if more then Again(Value(), log) else Return(Outcome(Value(), ok, log))
    {
      var pos := BufFind(CRLF);
      FirstIsUnique(Window(), CRLF, pos, Find(Window(), CRLF));
      if pos > HEADER_MAX { return false, false, log0; }
      ok, log := ReadHeaderLines(accept, log0);
      more := state == 3;
    }

    method BodyCase(accept: Callbacks, log0: seq<Event>) returns (more: bool, ok: bool, log: seq<Event>)
      requires Valid()
      modifies this`spos, this`state, this`isValid
      ensures Valid() && (more ==> state in {old(state), 4})
      ensures BodyText(boundary, old(Value()), accept, log0) ==
              if more then Again(Value(), log) else Return(Outcome(Value(), ok, log))
    {
      hide OccursAt, FindFrom;
      if |CRLF_DASH| > epos - spos { return false, true, log0; }
      var p := BufFind(CRLF_DASH);
      FirstIsUnique(Window(), CRLF_DASH, p, Find(Window(), CRLF_DASH));
      log := log0 + [Content(Window()[..p])];
      if !accept(log) {
        isValid := false;
        return false, false, log;
      }
      BufErase(p);
      more, ok, log := CandidateCase(accept, log);
    }

    method CandidateCase(accept: Callbacks, log0: seq<Event>) returns (more: bool, ok: bool, log: seq<Event>)
      requires Valid()
      modifies this`spos, this`state, this`isValid
      ensures Valid() && (more ==> state in {old(state), 4})
      ensures Candidate(boundary, old(Value()), accept, log0) ==
              if more then Again(Value(), log) else Return(Outcome(Value(), ok, log))
    {
      hide OccursAt, FindFrom;
      var delim := Delimiter(boundary);
      if |delim| > epos - spos { return false, true, log0; }
      var q := BufFind(delim);
      FirstIsUnique(Window(), delim, q, Find(Window(), delim));
      if q < epos - spos {
        log := log0 + [Content(Window()[..q])];
        if !accept(log) {
          isValid := false;
          return false, false, log;
        }
        BufErase(q + |delim|);
        state := 4;
        return true, true, log + [Drop(delim)];
      }
      log := log0 + [Content(Window()[..|delim|])];
      if !accept(log) {
        isValid := false;
        return false, false, log;
      }
      BufErase(|delim|);
      return true, true, log;
    }

    method AfterBoundaryCase(log0: seq<Event>) returns (more: bool, ok: bool, log: seq<Event>)
      requires Valid()
      modifies this`spos, this`state, this`isValid
      ensures Valid() && (more ==> state in {1, 5})
      ensures AfterBoundary(old(Value()), log0) ==
              if more then Again(Value(), log) else Return(Outcome(Value(), ok, log))
    {
      if |CRLF| > epos - spos { return false, true, log0; }
      var yes := StartWith(CRLF);
      if yes {
        BufErase(|CRLF|);
        state := 1;
        return true, true, log0 + [Drop(CRLF)];
      }
      if |DASH_CRLF| > epos - spos { return false, true, log0; }
      yes := StartWith(DASH_CRLF);
      if !yes { return false, true, log0; }
      BufErase(|DASH_CRLF|);
      isValid := true;
      state := 5;
      return true, true, log0 + [Drop(DASH_CRLF)];
    }

    method Parse(data: string, accept: Callbacks, log0: seq<Event>) returns (ok: bool, log: seq<Event>)
      requires Valid()
      modifies this, buf
      ensures Valid() && boundary == old(boundary) && (buf == old(buf) || fresh(buf))
      ensures Outcome(Value(), ok, log) == ParseCall(old(boundary), old(Value()), accept, data, log0)
    {
      hide InitialBoundary, HeaderSection, BodyText, AfterBoundary;
      BufAppend(data);
      ok, log := true, log0;
      var more := true;
      ghost var goal := Run(boundary, Value(), accept, log0);
      while epos - spos > 0
        invariant Valid() && boundary == old(boundary) && (buf == old(buf) || fresh(buf))
        invariant Run(boundary, Value(), accept, log) == goal
        decreases epos - spos, if state == 1 then 1 else 0
      {
        ghost var m, log1 := Value(), log;
        match state {
          case 0 => more, ok, log := InitialBoundaryCase(log);
          case 1 =>
            file := NO_FILE;
            state := 2;
            more := true;
          case 2 => more, ok, log := HeaderCase(accept, log);
          case 3 => more, ok, log := BodyCase(accept, log);
          case 4 => more, ok, log := AfterBoundaryCase(log);
          case _ =>
            isValid := false;
            more, ok := false, false;
        }
        assert TakeTurn(boundary, m, accept, log1) ==
               if more then Again(Value(), log) else Return(Outcome(Value(), ok, log));
        if !more { return ok, log; }
      }
      return true, log;
    }
  }

  // ------------------------------------------------------------------------------------------
  // The client's printer

  predicate BoundaryChars(boundary: string) {
    forall i | 0 <= i < |boundary| :: IsAlnum(boundary[i]) || boundary[i] == '-' || boundary[i] == '_'
  }

  function DispositionLine(item: FormData): string {
    "Content-Disposition: form-data; name=\"" + item.name + "\"" +
    if item.filename == "" then "" else "; filename=\"" + item.filename + "\""
  }

  function ContentTypeLine(item: FormData): string {
    if item.contentType == "" then "" else "Content-Type: " + item.contentType + CRLF
  }

  // One item, its opening delimiter line included.
  function PrintItem(boundary: string, item: FormData): string {
    (DASH + boundary + CRLF) +
    (DispositionLine(item) + (CRLF + (ContentTypeLine(item) + (CRLF + (item.content + CRLF)))))
  }

  function PrintItems(boundary: string, items: seq<FormData>): string
  {
    if items == [] then ""
    else PrintItem(boundary, items[0]) + PrintItems(boundary, items[1..])
  }

  function PrintBody(boundary: string, items: seq<FormData>): string {
    PrintItems(boundary, items) + ClosingLine(boundary)
  }

  function ClosingLine(boundary: string): string { DASH + boundary + DASH_CRLF }

  lemma PrintOneMore(boundary: string, items: seq<FormData>, item: FormData)
    ensures PrintItems(boundary, items + [item]) == PrintItems(boundary, items) + PrintItem(boundary, item)
  {
    hide PrintItem;
    if items == [] {
      assert items + [item] == [item] && [item][1..] == [];
    } else {
      assert (items + [item])[1..] == items[1..] + [item];
      PrintOneMore(boundary, items[1..], item);
    }
  }

  method AppendItem(body0: string, boundary: string, item: FormData) returns (body: string)
    ensures body == body0 + PrintItem(boundary, item)
  {
    body := body0 + ("--" + boundary + "\r\n");
    ghost var body1 := body;
    body := body + ("Content-Disposition: form-data; name=\"" + item.name + "\"");
    if item.filename != "" {
      body := body + ("; filename=\"" + item.filename + "\"");
    }
    assert body == body1 + DispositionLine(item);
    body := body + "\r\n";
    ghost var body2 := body;
    if item.contentType != "" {
      body := body + ("Content-Type: " + item.contentType + "\r\n");
    }
    assert body == body2 + ContentTypeLine(item);
    body := body + "\r\n";
    body := body + (item.content + "\r\n");
    Regroup(body0, DASH + boundary + CRLF, DispositionLine(item), CRLF, ContentTypeLine(item), item.content);
  }

  lemma Regroup(x: string, a: string, b: string, c: string, d: string, e: string)
    ensures x + a + b + c + d + c + (e + c) == x + (a + (b + (c + (d + (c + (e + c))))))
  {
    assert x + a + b + c + d + c + (e + c) == x + a + b + c + (d + (c + (e + c)));
    assert x + a + b + c + (d + (c + (e + c))) == x + (a + (b + (c + (d + (c + (e + c))))));
  }

  datatype PostResult = UnsupportedBoundaryChars | Body(body: string)

  method Post(items: seq<FormData>, boundary: string) returns (r: PostResult)
    ensures r.Body? <==> BoundaryChars(boundary)
    ensures r.Body? ==> r.body == PrintBody(boundary, items)
  {
    hide PrintItem;
    for i := 0 to |boundary|
      invariant BoundaryChars(boundary[..i])
    {
      var c := boundary[i];
      if !IsAlnum(c) && c != '-' && c != '_' { return UnsupportedBoundaryChars; }
    }
    assert boundary[..|boundary|] == boundary;
    var body := "";
    for i := 0 to |items|
      invariant body == PrintItems(boundary, items[..i])
    {
      body := AppendItem(body, boundary, items[i]);
      assert items[..i + 1] == items[..i] + [items[i]];
      PrintOneMore(boundary, items[..i], items[i]);
    }
    assert items[..|items|] == items;
    body := body + ("--" + boundary + "--\r\n");
    return Body(body);
  }
}
