/** The batch a crawl is normalised to: one row a code in each list, and every reference in it resolves. */
module Batch {
  import opened Wrappers
  import opened Hosts
  import opened Crawl
  import opened Slugs
  import opened Normalize

  // ----- insertion-ordered maps -----

  /** A map's values in the order their keys were first set; setting a key again replaces its value in place. */
  function Put<V>(rows: seq<V>, key: V -> string, v: V): seq<V> {
    if rows == [] then [v]
    else if key(rows[0]) == key(v) then [v] + rows[1..]
    else [rows[0]] + Put(rows[1..], key, v)
  }

  function PutAll<V>(key: V -> string, vs: seq<V>): seq<V> {
    if vs == [] then [] else Put(PutAll(key, vs[..|vs| - 1]), key, vs[|vs| - 1])
  }

  predicate HasKey<V>(rows: seq<V>, key: V -> string, k: string) {
    exists i :: 0 <= i < |rows| && key(rows[i]) == k
  }

  predicate Unique<V>(rows: seq<V>, key: V -> string) {
    forall i, j :: 0 <= i < j < |rows| ==> key(rows[i]) != key(rows[j])
  }

  lemma {:induction false} PutKeeps<V>(rows: seq<V>, key: V -> string, v: V)
    requires Unique(rows, key)
    ensures Unique(Put(rows, key, v), key)
    ensures forall k :: HasKey(Put(rows, key, v), key, k) <==> HasKey(rows, key, k) || k == key(v)
    ensures forall x :: x in Put(rows, key, v) ==> x == v || (x in rows && key(x) != key(v))
  {
    if rows == [] {
      forall k ensures HasKey([v], key, k) <==> k == key(v) {
        assert [v][0] == v;
      }
    } else {
      var rest := rows[1..];
      forall i | 0 <= i < |rest| ensures rest[i] == rows[i + 1] {}
      if key(rows[0]) == key(v) {
        PutHead(rows, key, v);
      } else {
        PutKeeps(rest, key, v);
        PutTail(rows[0], rest, Put(rest, key, v), key, v);
        assert rows == [rows[0]] + rest;
      }
    }
  }

  lemma PutHead<V>(rows: seq<V>, key: V -> string, v: V)
    requires rows != [] && Unique(rows, key) && key(rows[0]) == key(v)
    ensures var r := [v] + rows[1..];
      && Unique(r, key)
      && (forall k :: HasKey(r, key, k) <==> HasKey(rows, key, k) || k == key(v))
      && (forall x :: x in r ==> x == v || (x in rows && key(x) != key(v)))
  {
    var r := [v] + rows[1..];
    assert forall i :: 0 < i < |rows| ==> r[i] == rows[i];
    forall k ensures HasKey(r, key, k) <==> HasKey(rows, key, k) || k == key(v) {
      if HasKey(rows, key, k) {
        var i :| 0 <= i < |rows| && key(rows[i]) == k;
        assert key(r[i]) == k;
      }
      if HasKey(r, key, k) {
        var i :| 0 <= i < |r| && key(r[i]) == k;
        assert key(rows[i]) == k;
      }
    }
    assert r[0] == v;
  }

  lemma PutTail<V>(head: V, rest: seq<V>, put: seq<V>, key: V -> string, v: V)
    requires Unique([head] + rest, key) && key(head) != key(v) && Unique(put, key)
    requires forall k :: HasKey(put, key, k) <==> HasKey(rest, key, k) || k == key(v)
    requires forall x :: x in put ==> x == v || (x in rest && key(x) != key(v))
    ensures Unique([head] + put, key)
    ensures forall k :: HasKey([head] + put, key, k) <==> HasKey([head] + rest, key, k) || k == key(v)
    ensures forall x :: x in [head] + put ==> x == v || (x in [head] + rest && key(x) != key(v))
  {
    hide Unique;
    HeadUnique(head, rest, key);
    forall k {:trigger HasKey([head] + put, key, k)} ensures HasKey([head] + put, key, k) <==> HasKey([head] + rest, key, k) || k == key(v) {
      HasKeyHead(head, put, key, k);
      HasKeyHead(head, rest, key, k);
    }
    assert !HasKey(put, key, key(head));
    UniqueHead(head, put, key);
  }

  lemma HasKeyHead<V>(head: V, rest: seq<V>, key: V -> string, k: string)
    ensures HasKey([head] + rest, key, k) <==> key(head) == k || HasKey(rest, key, k)
  {
    var all := [head] + rest;
    if HasKey(rest, key, k) {
      var i :| 0 <= i < |rest| && key(rest[i]) == k;
      assert key(all[i + 1]) == k;
    }
    if HasKey(all, key, k) && key(head) != k {
      var i :| 0 <= i < |all| && key(all[i]) == k;
      assert key(rest[i - 1]) == k;
    }
    assert all[0] == head;
  }

  lemma HeadUnique<V>(head: V, rest: seq<V>, key: V -> string)
    requires Unique([head] + rest, key)
    ensures Unique(rest, key) && !HasKey(rest, key, key(head))
  {
    var all := [head] + rest;
    assert forall i :: 0 <= i < |rest| ==> all[i + 1] == rest[i];
    assert all[0] == head;
  }

  lemma UniqueHead<V>(head: V, rest: seq<V>, key: V -> string)
    requires Unique(rest, key) && !HasKey(rest, key, key(head))
    ensures Unique([head] + rest, key)
  {
  }

  /** Each key once, for exactly the keys put, and only values put. */
  lemma {:induction false} PutAllKeeps<V>(key: V -> string, vs: seq<V>)
    ensures Unique(PutAll(key, vs), key)
    ensures forall k :: HasKey(PutAll(key, vs), key, k) <==> HasKey(vs, key, k)
    ensures forall x :: x in PutAll(key, vs) ==> x in vs
  {
    hide Put, Unique, HasKey;
    if vs == [] {
      NoRows(key);
    } else {
      var front, v := vs[..|vs| - 1], vs[|vs| - 1];
      PutAllKeeps(key, front);
      PutKeeps(PutAll(key, front), key, v);
      assert vs == front + [v];
      forall k ensures HasKey(vs, key, k) <==> HasKey(front, key, k) || k == key(v) {
        HasKeyLast(front, v, key, k);
      }
    }
  }

  lemma NoRows<V>(key: V -> string)
    ensures Unique([], key)
  {
  }

  lemma HasKeyLast<V>(front: seq<V>, v: V, key: V -> string, k: string)
    ensures HasKey(front + [v], key, k) <==> HasKey(front, key, k) || k == key(v)
  {
    var all := front + [v];
    if HasKey(front, key, k) {
      var i :| 0 <= i < |front| && key(front[i]) == k;
      assert key(all[i]) == k;
    }
    assert all[|front|] == v;
  }

  /** The last value put under a key is the one kept. */
  lemma {:induction false} LastPutWins<V>(key: V -> string, vs: seq<V>, i: nat)
    requires i < |vs| && forall j :: i < j < |vs| ==> key(vs[j]) != key(vs[i])
    ensures vs[i] in PutAll(key, vs)
  {
    var front, v := vs[..|vs| - 1], vs[|vs| - 1];
    if i < |front| {
      assert front[i] == vs[i];
      LastPutWins(key, front, i);
      PutOther(PutAll(key, front), key, v, vs[i]);
    } else {
      PutIsThere(PutAll(key, front), key, v);
    }
  }

  lemma {:induction false} PutOther<V>(rows: seq<V>, key: V -> string, v: V, x: V)
    requires x in rows && key(x) != key(v)
    ensures x in Put(rows, key, v)
  {
    assert rows == [rows[0]] + rows[1..];
    if x != rows[0] && key(rows[0]) != key(v) {
      PutOther(rows[1..], key, v, x);
    }
  }

  lemma {:induction false} PutIsThere<V>(rows: seq<V>, key: V -> string, v: V)
    ensures v in Put(rows, key, v)
  {
    if rows != [] && key(rows[0]) != key(v) {
      PutIsThere(rows[1..], key, v);
    }
  }

  // ----- the batch -----

  datatype Term = Term(code: string, name: string)
  datatype Department = Department(code: string, name: string)
  datatype Program = Program(code: string, name: string, department: string)
  datatype Section = Section(code: string, name: string, program: string, term: string)
  datatype Course = Course(code: string, title: string)
  datatype Kind = Lab | Lecture
  datatype Entry = Entry(
    term: string, section: string, course: string, teacher: Option<string>, room: Option<string>,
    day: int, startsAt: string, endsAt: string, kind: Kind, sourceRef: string)
  datatype Unmapped = UnmappedProgram(raw: string) | UnmappedSection(raw: string)

  datatype NormalizedBatch = NormalizedBatch(
    terms: seq<Term>, departments: seq<Department>, programs: seq<Program>, courses: seq<Course>,
    teachers: seq<string>, sections: seq<Section>, entries: seq<Entry>, unknowns: seq<Unmapped>)

  const UNASSIGNED := Department("UNASSIGNED", "Unassigned")

  /** A section as crawled, and a slot of it. */
  datatype Line = Line(of: RawSection, slot: Slot)

  function NameOf(c: Choice): string {
    if c.text == "" then c.value else c.text
  }

  predicate Contains(s: string, part: string) {
    |part| <= |s| && (s[..|part|] == part || (s != "" && Contains(s[1..], part)))
  }

  function KindFor(title: string): Kind {
    if Contains(Lower(title), "lab") then Lab else Lecture
  }

  function SectionCode(r: RawSection): string {
    r.degree.value + "::" + r.semester.value + "::" + r.section.value
  }

  function TermOf(r: RawSection): Term {
    Term(r.semester.value, NameOf(r.semester))
  }

  function ProgramOf(r: RawSection): Program {
    Program(r.degree.value, NameOf(r.degree), UNASSIGNED.code)
  }

  function SectionOf(r: RawSection): Section {
    Section(SectionCode(r), NameOf(r.section), r.degree.value, r.semester.value)
  }

  function CourseOf(l: Line): Course {
    Course(Slugify(l.slot.subject), l.slot.subject)
  }

  function EntryOf(l: Line): Entry {
    Entry(l.of.semester.value, SectionCode(l.of), Slugify(l.slot.subject), l.slot.teacher, l.slot.room,
          l.slot.day, l.slot.startsAt, l.slot.endsAt, KindFor(l.slot.subject),
          l.of.semester.value + "|" + l.of.degree.value + "|" + l.of.section.value)
  }

  /** The texts there are, joined by bars. */
  function Barred(parts: seq<string>): string {
    if parts == [] then ""
    else
      var front, last := Barred(parts[..|parts| - 1]), parts[|parts| - 1];
      if last == "" then front else if front == "" then last else front + "|" + last
  }

  function UnmappedOf(a: Anomaly): Unmapped {
    match a
    case NoDegrees(s, _) => UnmappedProgram(OrStage(Barred([s]), "degrees"))
    case NoSections(s, d, _) => UnmappedSection(OrStage(Barred([s, d]), "sections"))
    case NoTimetable(s, d, x, _) => UnmappedSection(OrStage(Barred([s, d, x]), "timetable"))
  }

  function OrStage(raw: string, stage: string): string {
    if raw == "" then stage else raw
  }

  function Each<A, B>(f: A -> B, xs: seq<A>): (ys: seq<B>)
    ensures |ys| == |xs| && forall i :: 0 <= i < |xs| ==> ys[i] == f(xs[i])
  {
    if xs == [] then [] else Each(f, xs[..|xs| - 1]) + [f(xs[|xs| - 1])]
  }

  /** Every slot of every section, in order. `page` is the timetable's rows as read from its HTML. */
  function Lines(raw: seq<RawSection>, page: string -> seq<Row>): seq<Line> {
    if raw == [] then []
    else
      var r := raw[|raw| - 1];
      Lines(raw[..|raw| - 1], page) + LinesOf(r, SlotsOf(page(r.html)))
  }

  function LinesOf(r: RawSection, slots: seq<Slot>): (lines: seq<Line>)
    ensures |lines| == |slots|
  {
    seq(|slots|, i requires 0 <= i < |slots| => Line(r, slots[i]))
  }

  function Teachers(lines: seq<Line>): seq<string> {
    if lines == [] then []
    else
      var t := lines[|lines| - 1].slot.teacher;
      Teachers(lines[..|lines| - 1]) + (if t.Some? then [t.value] else [])
  }

  function TermCode(t: Term): string { t.code }

  function ProgramCode(p: Program): string { p.code }

  function CourseCode(c: Course): string { c.code }

  function SectionKey(s: Section): string { s.code }

  function TeacherName(t: string): string { t }

  /** What a crawl is normalised to. */
  function Normalized(raw: seq<RawSection>, anomalies: seq<Anomaly>, page: string -> seq<Row>): NormalizedBatch {
    var lines := Lines(raw, page);
    NormalizedBatch(
      PutAll(TermCode, Each(TermOf, raw)), [UNASSIGNED], PutAll(ProgramCode, Each(ProgramOf, raw)),
      PutAll(CourseCode, Each(CourseOf, lines)), PutAll(TeacherName, Teachers(lines)),
      Each(SectionOf, raw), Each(EntryOf, lines), Each(UnmappedOf, anomalies))
  }

  lemma EachNext<A, B>(f: A -> B, xs: seq<A>, i: nat)
    requires i < |xs|
    ensures Each(f, xs[..i + 1]) == Each(f, xs[..i]) + [f(xs[i])]
  {
    assert xs[..i + 1][..i] == xs[..i];
  }

  lemma PutAllNext<A, V>(f: A -> V, key: V -> string, xs: seq<A>, i: nat)
    requires i < |xs|
    ensures PutAll(key, Each(f, xs[..i + 1])) == Put(PutAll(key, Each(f, xs[..i])), key, f(xs[i]))
  {
    hide Put;
    EachNext(f, xs, i);
    var vs := Each(f, xs[..i + 1]);
    assert vs[..|vs| - 1] == Each(f, xs[..i]);
  }

  lemma PutAllLast<V>(key: V -> string, vs: seq<V>, v: V)
    ensures PutAll(key, vs + [v]) == Put(PutAll(key, vs), key, v)
  {
    assert (vs + [v])[..|vs|] == vs;
  }

  lemma EachLast<A, B>(f: A -> B, xs: seq<A>, x: A)
    ensures Each(f, xs + [x]) == Each(f, xs) + [f(x)]
  {
    assert (xs + [x])[..|xs|] == xs;
  }

  lemma TeachersLast(lines: seq<Line>, l: Line)
    ensures Teachers(lines + [l]) == Teachers(lines) + (if l.slot.teacher.Some? then [l.slot.teacher.value] else [])
  {
    assert (lines + [l])[..|lines|] == lines;
  }

  /** The lists a section's slots add to. */
  class Builder {
    var courses: seq<Course>
    var teachers: seq<string>
    var entries: seq<Entry>
    ghost var lines: seq<Line>

    ghost predicate Valid()
      reads this
    {
      && courses == PutAll(CourseCode, Each(CourseOf, lines))
      && teachers == PutAll(TeacherName, Teachers(lines))
      && entries == Each(EntryOf, lines)
    }

    constructor ()
      ensures Valid() && lines == []
    {
      courses, teachers, entries, lines := [], [], [], [];
    }

    method AddSlots(r: RawSection, slots: seq<Slot>)
      requires Valid()
      modifies this
      ensures Valid() && lines == old(lines) + LinesOf(r, slots)
    {
      hide Put, PutAll, Each, Teachers, EntryOf, CourseOf;
      assert LinesOf(r, slots)[..0] == [];
      for i := 0 to |slots|
        invariant Valid() && lines == old(lines) + LinesOf(r, slots)[..i]
      {
        var slot := slots[i];
        ghost var l := Line(r, slot);
        EachLast(CourseOf, lines, l);
        EachLast(EntryOf, lines, l);
        TeachersLast(lines, l);
        PutAllLast(CourseCode, Each(CourseOf, lines), CourseOf(l));
        courses := Put(courses, CourseCode, CourseOf(Line(r, slot)));
        if slot.teacher.Some? {
          PutAllLast(TeacherName, Teachers(lines), slot.teacher.value);
          teachers := Put(teachers, TeacherName, slot.teacher.value);
        } else {
          assert Teachers(lines) + [] == Teachers(lines);
        }
        entries := entries + [EntryOf(Line(r, slot))];
        lines := lines + [l];
        assert LinesOf(r, slots)[..i + 1] == LinesOf(r, slots)[..i] + [l];
      }
      assert LinesOf(r, slots)[..|slots|] == LinesOf(r, slots);
    }
  }

  method NormalizeRecords(raw: seq<RawSection>, anomalies: seq<Anomaly>, page: string -> seq<Row>) returns (batch: NormalizedBatch)
    ensures batch == Normalized(raw, anomalies, page)
  {
    hide Put, PutAll, Each, TermOf, ProgramOf, SectionOf, UnmappedOf, SlotsOf;
    var terms: seq<Term>, programs: seq<Program>, sections: seq<Section> := [], [], [];
    var builder := new Builder();
    Nothing(raw);
    for i := 0 to |raw|
      invariant builder.Valid() && builder.lines == Lines(raw[..i], page) && fresh(builder)
      invariant terms == PutAll(TermCode, Each(TermOf, raw[..i]))
      invariant programs == PutAll(ProgramCode, Each(ProgramOf, raw[..i]))
      invariant sections == Each(SectionOf, raw[..i])
    {
      var r := raw[i];
      PutAllNext(TermOf, TermCode, raw, i);
      PutAllNext(ProgramOf, ProgramCode, raw, i);
      EachNext(SectionOf, raw, i);
      assert raw[..i + 1][..i] == raw[..i];
      terms := Put(terms, TermCode, TermOf(r));
      programs := Put(programs, ProgramCode, ProgramOf(r));
      sections := sections + [SectionOf(r)];
      var slots := ParseTimetable(page(r.html));
      builder.AddSlots(r, slots);
    }
    assert raw[..|raw|] == raw;
    batch := NormalizedBatch(
      terms, [UNASSIGNED], programs, builder.courses, builder.teachers, sections, builder.entries, Each(UnmappedOf, anomalies));
  }

  lemma Nothing(raw: seq<RawSection>)
    ensures PutAll(TermCode, Each(TermOf, raw[..0])) == [] && PutAll(ProgramCode, Each(ProgramOf, raw[..0])) == []
    ensures Each(SectionOf, raw[..0]) == []
  {
  }

  // ----- every reference resolves -----

  predicate Closed(b: NormalizedBatch) {
    && (forall e :: e in b.entries ==> Resolves(b, e))
    && (forall s :: s in b.sections ==> HasKey(b.programs, ProgramCode, s.program) && HasKey(b.terms, TermCode, s.term))
    && (forall p :: p in b.programs ==> b.departments == [UNASSIGNED] && p.department == UNASSIGNED.code)
  }

  predicate Resolves(b: NormalizedBatch, e: Entry) {
    && HasKey(b.terms, TermCode, e.term)
    && HasKey(b.sections, SectionKey, e.section)
    && HasKey(b.courses, CourseCode, e.course)
    && (e.teacher.Some? ==> HasKey(b.teachers, TeacherName, e.teacher.value))
  }

  lemma KeyOfEach<A, V>(f: A -> V, key: V -> string, xs: seq<A>, x: A)
    requires x in xs
    ensures HasKey(Each(f, xs), key, key(f(x)))
  {
    var i :| 0 <= i < |xs| && xs[i] == x;
    assert Each(f, xs)[i] == f(x);
  }

  lemma {:induction false} LinesFrom(raw: seq<RawSection>, page: string -> seq<Row>, l: Line)
    requires l in Lines(raw, page)
    ensures l.of in raw && l.slot in SlotsOf(page(l.of.html))
  {
    hide SlotsOf;
    var front, r := raw[..|raw| - 1], raw[|raw| - 1];
    if l in Lines(front, page) {
      LinesFrom(front, page, l);
    } else {
      var i :| 0 <= i < |LinesOf(r, SlotsOf(page(r.html)))| && LinesOf(r, SlotsOf(page(r.html)))[i] == l;
    }
  }

  lemma {:induction false} TeacherListed(lines: seq<Line>, l: Line)
    requires l in lines && l.slot.teacher.Some?
    ensures HasKey(Teachers(lines), TeacherName, l.slot.teacher.value)
  {
    var front, last := lines[..|lines| - 1], lines[|lines| - 1];
    assert lines == front + [last];
    var ts := Teachers(lines);
    if l == last {
      assert ts[|ts| - 1] == l.slot.teacher.value;
    } else {
      TeacherListed(front, l);
      var i :| 0 <= i < |Teachers(front)| && Teachers(front)[i] == l.slot.teacher.value;
      assert TeacherName(ts[i]) == l.slot.teacher.value;
    }
  }

  lemma EntryResolves(raw: seq<RawSection>, anomalies: seq<Anomaly>, page: string -> seq<Row>, l: Line)
    requires l in Lines(raw, page)
    ensures Resolves(Normalized(raw, anomalies, page), EntryOf(l))
  {
    hide PutAll, Each, HasKey, Lines, Teachers, SlotsOf, Unique;
    var lines := Lines(raw, page);
    LinesFrom(raw, page, l);
    KeyOfEach(TermOf, TermCode, raw, l.of);
    PutAllKeeps(TermCode, Each(TermOf, raw));
    KeyOfEach(SectionOf, SectionKey, raw, l.of);
    KeyOfEach(CourseOf, CourseCode, lines, l);
    PutAllKeeps(CourseCode, Each(CourseOf, lines));
    PutAllKeeps(TeacherName, Teachers(lines));
    if l.slot.teacher.Some? {
      TeacherListed(lines, l);
    }
  }

  /** The batch is closed: every entry's term, section, course and teacher are in it, and every section's program and term. */
  lemma BatchIsClosed(raw: seq<RawSection>, anomalies: seq<Anomaly>, page: string -> seq<Row>)
    ensures Closed(Normalized(raw, anomalies, page))
  {
    hide PutAll, HasKey, Lines, Teachers, SlotsOf, EntryOf, Resolves;
    var b := Normalized(raw, anomalies, page);
    forall e | e in b.entries ensures Resolves(b, e) {
      var i :| 0 <= i < |b.entries| && b.entries[i] == e;
      EntryResolves(raw, anomalies, page, Lines(raw, page)[i]);
    }
    PutAllKeeps(TermCode, Each(TermOf, raw));
    PutAllKeeps(ProgramCode, Each(ProgramOf, raw));
    forall s | s in b.sections ensures HasKey(b.programs, ProgramCode, s.program) && HasKey(b.terms, TermCode, s.term) {
      var i :| 0 <= i < |raw| && b.sections[i] == s;
      KeyOfEach(TermOf, TermCode, raw, raw[i]);
      KeyOfEach(ProgramOf, ProgramCode, raw, raw[i]);
    }
    forall p | p in b.programs ensures p.department == UNASSIGNED.code {
      assert p in Each(ProgramOf, raw);
    }
  }

  function SlotCount(raw: seq<RawSection>, page: string -> seq<Row>): nat {
    if raw == [] then 0 else SlotCount(raw[..|raw| - 1], page) + |SlotsOf(page(raw[|raw| - 1].html))|
  }

  /** Nothing is dropped or made up: an entry a slot, a section a section, an unknown an anomaly; each code listed once. */
  lemma BatchCounts(raw: seq<RawSection>, anomalies: seq<Anomaly>, page: string -> seq<Row>)
    ensures var b := Normalized(raw, anomalies, page);
      && |b.entries| == SlotCount(raw, page) && |b.sections| == |raw| && |b.unknowns| == |anomalies|
      && Unique(b.terms, TermCode) && Unique(b.programs, ProgramCode)
      && Unique(b.courses, CourseCode) && Unique(b.teachers, TeacherName)
  {
    hide PutAll, Each, SlotsOf, HasKey, Unique;
    LineCount(raw, page);
    var lines := Lines(raw, page);
    PutAllKeeps(TermCode, Each(TermOf, raw));
    PutAllKeeps(ProgramCode, Each(ProgramOf, raw));
    PutAllKeeps(CourseCode, Each(CourseOf, lines));
    PutAllKeeps(TeacherName, Teachers(lines));
  }

  lemma {:induction false} LineCount(raw: seq<RawSection>, page: string -> seq<Row>)
    ensures |Lines(raw, page)| == SlotCount(raw, page)
  {
    hide SlotsOf;
    if raw != [] { LineCount(raw[..|raw| - 1], page); }
  }

  /** Section codes tell sections apart when degree and semester values have no colon. */
  lemma SectionCodesTellApart(a: RawSection, b: RawSection)
    requires ':' !in a.degree.value && ':' !in b.degree.value && ':' !in a.semester.value && ':' !in b.semester.value
    ensures SectionCode(a) == SectionCode(b) <==>
      a.degree.value == b.degree.value && a.semester.value == b.semester.value && a.section.value == b.section.value
  {
    if SectionCode(a) == SectionCode(b) {
      assert SectionCode(a) == a.degree.value + "::" + (a.semester.value + "::" + a.section.value);
      assert SectionCode(b) == b.degree.value + "::" + (b.semester.value + "::" + b.section.value);
      CutAtColons(a.degree.value, a.semester.value + "::" + a.section.value, b.degree.value, b.semester.value + "::" + b.section.value);
      CutAtColons(a.semester.value, a.section.value, b.semester.value, b.section.value);
    }
  }

  lemma CutAtColons(a: string, x: string, b: string, y: string)
    requires ':' !in a && ':' !in b && a + "::" + x == b + "::" + y
    ensures a == b && x == y
  {
    var whole := a + "::" + x;
    assert whole[|a|] == ':' && whole[|b|] == ':';
    assert forall i :: 0 <= i < |a| ==> whole[i] == a[i];
    assert forall i :: 0 <= i < |b| ==> whole[i] == b[i];
    assert |a| == |b|;
    assert whole[..|a|] == a && whole[..|b|] == b;
    assert whole[|a| + 2..] == x && whole[|b| + 2..] == y;
  }
}
