/** Identity resolution for people: the non-member get-or-create on the
    `Person` table and `PersonMatcher`, which trusts a parliament id only when
    the stored name has the same tokens as the scraped one. */
module People {
  import opened Wrappers
  import opened Seqs
  import opened Store
  import opened PyStr

  /** A `Person` row. The core never changes a person once stored. */
  class Person {
    const name: string
    const cdepId: Option<int>

    constructor (name: string, cdepId: Option<int>)
      ensures this.name == name && this.cdepId == cdepId
    {
      this.name := name;
      this.cdepId := cdepId;
    }
  }

  /** The filter of `get_or_create_non_mp`: this name, and no parliament id. */
  predicate IsNonMp(p: Person, name: string)
  {
    p.name == name && p.cdepId.None?
  }

  /** The first non-member person of that name in query order, if any. */
  function FindNonMp(rows: seq<Person>, name: string): (r: Option<nat>)
  {
    FirstIndex(rows, p => IsNonMp(p, name))
  }

  /** The `Person` table as the session's queries see it, in query order. */
  class PersonTable {
    var rows: seq<Person>
    const session: Session

    constructor (session: Session, rows: seq<Person>)
      ensures this.session == session && this.rows == rows
    {
      this.session := session;
      this.rows := rows;
    }

    /** `Person.get_or_create_non_mp(name)`: the first stored non-member of
        that name, or a new one, registered and flushed so that the next
        query finds it. */
    method GetOrCreateNonMp(name: string) returns (p: Person)
      modifies this, session
      ensures IsNonMp(p, name)
      ensures match FindNonMp(old(rows), name)
        case Some(i) =>
          p == old(rows)[i] && unchanged(this, session)
        case None =>
          && fresh(p) && rows == old(rows) + [p]
          && session.added == old(session.added) + [p] && session.flushes == old(session.flushes) + 1
      ensures session.commits == old(session.commits)
      ensures FindNonMp(rows, name).Some? && rows[FindNonMp(rows, name).value] == p
    {
      var i := 0;
      while i < |rows|
        invariant 0 <= i <= |rows|
        invariant forall j | 0 <= j < i :: !IsNonMp(rows[j], name)
      {
        if rows[i].name == name && rows[i].cdepId.None? {
          FindNonMpAt(rows, name, i);
          return rows[i];
        }
        i := i + 1;
      }
      p := new Person(name, None);
      session.Add(p);
      session.Flush();
      FirstIndexAppend(rows, p, q => IsNonMp(q, name));
      rows := rows + [p];
    }
  }

  /** A match with no match before it is the first match. */
  lemma FindNonMpAt(rows: seq<Person>, name: string, i: nat)
    requires i < |rows| && IsNonMp(rows[i], name)
    requires forall j | 0 <= j < i :: !IsNonMp(rows[j], name)
    ensures FindNonMp(rows, name) == Some(i)
  {
  }

  /** Two calls with the same name return the same row, and together add at
      most one person. */
  method GetOrCreateNonMpTwice(table: PersonTable, name: string) returns (first: Person, second: Person)
    modifies table, table.session
    ensures first == second && IsNonMp(first, name)
    ensures |table.rows| <= |old(table.rows)| + 1
    ensures |table.session.added| <= |old(table.session.added)| + 1
  {
    first := table.GetOrCreateNonMp(name);
    second := table.GetOrCreateNonMp(name);
  }

  /** `name_bits`: the whitespace-separated tokens of the name once every
      hyphen is read as a space, as a set. */
  function NameBits(name: string): (bits: set<string>)
    ensures forall w | w in bits :: IsToken(w)
  {
    var s := Replace(name, '-', ' ');
    assert forall c | c in s :: c != '-';
    set w | w in Words(s)
  }

  /** A token as `name_bits` yields it: non-empty, no whitespace, no hyphen. */
  predicate IsToken(w: string)
  {
    w != [] && forall c | c in w :: !IsSpace(c) && c != '-'
  }

  /** A single token is its own token set. */
  lemma NameBitsToken(w: string)
    requires IsToken(w)
    ensures NameBits(w) == {w}
  {
    ReplaceAbsent(w, '-', ' ');
    WordsFromWord(w, []);
    assert [] + w == w;
  }

  /** A space or a hyphen splits the name: the tokens of the whole are the
      tokens of either side. */
  lemma NameBitsSplit(x: string, sep: char, y: string, whole: string)
    requires sep == ' ' || sep == '-'
    requires whole == x + [sep] + y
    ensures NameBits(whole) == NameBits(x) + NameBits(y)
  {
    var rx, ry := Replace(x, '-', ' '), Replace(y, '-', ' ');
    assert Replace(whole, '-', ' ') == rx + [' '] + ry by {
      ReplaceConcat(x + [sep], y, '-', ' ');
      ReplaceConcat(x, [sep], '-', ' ');
    }
    var words := Words(Replace(whole, '-', ' '));
    assert words == Words(rx) + Words(ry) by {
      WordsFromSplit(rx, ' ', ry, []);
    }
    assert (set w | w in words) == (set w | w in Words(rx)) + (set w | w in Words(ry)) by {
      SetOfConcat(Words(rx), Words(ry));
    }
  }

  lemma SetOfConcat(a: seq<string>, b: seq<string>)
    ensures (set w | w in a + b) == (set w | w in a) + (set w | w in b)
  {
  }

  /** Hence the order of the parts, and whether a hyphen or a space joins
      them, does not matter. */
  lemma NameBitsSwap(x: string, y: string)
    ensures NameBits(x + "-" + y) == NameBits(y + " " + x)
  {
    NameBitsSplit(x, '-', y, x + "-" + y);
    NameBitsSplit(y, ' ', x, y + " " + x);
  }

  /** The tokens of `a-b c` (as in "Ana-Maria Pop"). */
  lemma NameBitsHyphenated(a: string, b: string, c: string)
    requires IsToken(a) && IsToken(b) && IsToken(c)
    ensures NameBits(a + "-" + b + " " + c) == {a, b, c}
  {
    NameBitsToken(a);
    NameBitsToken(b);
    NameBitsToken(c);
    var ab := a + "-" + b;
    NameBitsSplit(a, '-', b, ab);
    NameBitsSplit(ab, ' ', c, ab + " " + c);
  }

  /** The tokens of `c  a b` (as in "Pop  Ana Maria"): a doubled space adds
      no empty token. */
  lemma NameBitsSpaced(a: string, b: string, c: string)
    requires IsToken(a) && IsToken(b) && IsToken(c)
    ensures NameBits(c + "  " + a + " " + b) == {a, b, c}
  {
    var ab := a + " " + b;
    assert NameBits(ab) == {a, b} by {
      NameBitsToken(a);
      NameBitsToken(b);
      NameBitsSplit(a, ' ', b, ab);
    }
    assert NameBits(" " + ab) == {a, b} by {
      assert NameBits("") == {} by {
        assert Replace("", '-', ' ') == "";
      }
      NameBitsSplit("", ' ', ab, " " + ab);
    }
    assert NameBits(c + "  " + a + " " + b) == {c} + {a, b} by {
      SpacedShape(a, b, c);
      NameBitsToken(c);
      NameBitsSplit(c, ' ', " " + ab, c + "  " + a + " " + b);
    }
  }

  lemma SpacedShape(a: string, b: string, c: string)
    ensures c + "  " + a + " " + b == c + [' '] + (" " + (a + " " + b))
  {
  }

  /** "Ana-Maria Pop" and "Pop  Ana Maria" name the same person, for any
      three tokens in those places. */
  lemma NameBitsReordered(a: string, b: string, c: string)
    requires IsToken(a) && IsToken(b) && IsToken(c)
    ensures NameBits(a + "-" + b + " " + c) == NameBits(c + "  " + a + " " + b)
  {
    NameBitsHyphenated(a, b, c);
    NameBitsSpaced(a, b, c);
  }

  /** Why `get_person` can refuse to return a person. */
  datatype MatchError =
    | UnknownCdepId(id: int)                  // the `KeyError` of the id lookup
    | NoMatch(name: string, cdepId: Option<int>) // the `RuntimeError` of strict mode

  /** What `get_person` does: return the person filed under the id, refuse,
      or fall back to the non-member get-or-create for the name. */
  datatype Resolution = Matched(person: Person) | Refused(error: MatchError) | NonMember

  /** `get_person(name, cdep_id, strict)` against the id index. */
  function Resolve(cdepPerson: map<Option<int>, Person>, name: string, cdepId: Option<int>, strict: bool): (r: Resolution)
    ensures r.Matched? ==> cdepId.Some? && cdepId in cdepPerson && r.person == cdepPerson[cdepId]
                           && NameBits(r.person.name) == NameBits(name)
    ensures r.Refused? && r.error.UnknownCdepId? <==> cdepId.Some? && cdepId !in cdepPerson
    ensures r.NonMember? ==> !strict
  {
    if cdepId.Some? && cdepId !in cdepPerson then Refused(UnknownCdepId(cdepId.value))
    else if cdepId.Some? && NameBits(cdepPerson[cdepId].name) == NameBits(name) then Matched(cdepPerson[cdepId])
    else if strict then Refused(NoMatch(name, cdepId))
    else NonMember
  }

  /** An id on file whose stored name has the same tokens gives that person,
      strict or not. */
  lemma ResolveMatched(cdepPerson: map<Option<int>, Person>, name: string, id: int, strict: bool)
    requires Some(id) in cdepPerson && NameBits(cdepPerson[Some(id)].name) == NameBits(name)
    ensures Resolve(cdepPerson, name, Some(id), strict) == Matched(cdepPerson[Some(id)])
  {
  }

  /** An id not on file fails the lookup, strict or not. */
  lemma ResolveUnknownId(cdepPerson: map<Option<int>, Person>, name: string, id: int, strict: bool)
    requires Some(id) !in cdepPerson
    ensures Resolve(cdepPerson, name, Some(id), strict) == Refused(UnknownCdepId(id))
  {
  }

  /** Strict mode refuses when there is no id or the names disagree. */
  lemma ResolveStrict(cdepPerson: map<Option<int>, Person>, name: string, cdepId: Option<int>)
    requires cdepId.None? || (cdepId in cdepPerson && NameBits(cdepPerson[cdepId].name) != NameBits(name))
    ensures Resolve(cdepPerson, name, cdepId, true) == Refused(NoMatch(name, cdepId))
  {
  }

  /** Otherwise, without strict mode, the name goes to the non-member
      get-or-create. */
  lemma ResolveFallback(cdepPerson: map<Option<int>, Person>, name: string, cdepId: Option<int>)
    requires cdepId.None? || (cdepId in cdepPerson && NameBits(cdepPerson[cdepId].name) != NameBits(name))
    ensures Resolve(cdepPerson, name, cdepId, false) == NonMember
  {
  }

  /** `{p.cdep_id: p for p in Person.query}`: a later person with the same
      id (non-members all share the `None` id) replaces an earlier one. */
  function IndexByCdepId(persons: seq<Person>): (m: map<Option<int>, Person>)
    ensures forall id | id in m :: m[id].cdepId == id && m[id] in persons
  {
    if persons == [] then map[]
    else
      var last := persons[|persons| - 1];
      IndexByCdepId(persons[..|persons| - 1])[last.cdepId := last]
  }

  /** The index has one entry per id present, holding a person with that id,
      and a person no later person shares an id with is the one filed. */
  lemma {:induction false} IndexByCdepIdFiles(persons: seq<Person>, i: nat)
    requires i < |persons|
    requires forall j | i < j < |persons| :: persons[j].cdepId != persons[i].cdepId
    ensures var m := IndexByCdepId(persons);
      persons[i].cdepId in m && m[persons[i].cdepId] == persons[i]
  {
    if i < |persons| - 1 {
      var init := persons[..|persons| - 1];
      assert init[i] == persons[i];
      IndexByCdepIdFiles(init, i);
    }
  }

  /** `PersonMatcher`: the id index taken once, when the matcher is built. */
  class PersonMatcher {
    const people: PersonTable
    const cdepPerson: map<Option<int>, Person>

    constructor (people: PersonTable)
      ensures this.people == people && cdepPerson == IndexByCdepId(people.rows)
    {
      this.people := people;
      var index: map<Option<int>, Person> := map[];
      var persons := people.rows;
      for i := 0 to |persons|
        invariant index == IndexByCdepId(persons[..i])
      {
        assert persons[..i + 1][..i] == persons[..i];
        index := index[persons[i].cdepId := persons[i]];
      }
      assert persons[..|persons|] == persons;
      cdepPerson := index;
    }

    /** `get_person(name, cdep_id, strict)`: the person `Resolve` names, the
        error it names, or the non-member of that name, created if needed. */
    method GetPerson(name: string, cdepId: Option<int>, strict: bool) returns (r: Result<Person, MatchError>)
      modifies people, people.session
      ensures match Resolve(cdepPerson, name, cdepId, strict)
        case Matched(p) => r == Success(p) && unchanged(people, people.session)
        case Refused(e) => r == Failure(e) && unchanged(people, people.session)
        case NonMember =>
          && r.Success? && IsNonMp(r.value, name)
          && (match FindNonMp(old(people.rows), name)
              case Some(i) => r.value == old(people.rows)[i] && unchanged(people, people.session)
              case None =>
                && fresh(r.value) && people.rows == old(people.rows) + [r.value]
                && people.session.added == old(people.session.added) + [r.value]
                && people.session.flushes == old(people.session.flushes) + 1
                && people.session.commits == old(people.session.commits))
    {
      if cdepId.Some? {
        if cdepId !in cdepPerson {
          return Failure(UnknownCdepId(cdepId.value));
        }
        var person := cdepPerson[cdepId];
        if NameBits(person.name) == NameBits(name) {
          return Success(person);
        }
      }
      if strict {
        return Failure(NoMatch(name, cdepId));
      }
      var p := people.GetOrCreateNonMp(name);
      r := Success(p);
    }
  }
}
