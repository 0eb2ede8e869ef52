/** Saved contacts and groups: the commands that edit them, what loading demands of the saved
    state, and the expansion of a recipient into keys. */
module Contacts {
  import opened Prelude
  import opened Lists
  import opened Naming

  /** The saved state: contact names to key texts, group names to members. */
  datatype Book = Book(contacts: map<string, string>, groups: map<string, seq<string>>)

  /** How a public key is read from its text and written back. */
  datatype Keys = Keys(parse: string -> Option<Bytes>, canonical: Bytes -> string)

  /** Writing a key that was read, and reading it again, gives the key. */
  ghost predicate RoundTrips(k: Keys) {
    forall t :: k.parse(t).Some? ==> k.parse(k.canonical(k.parse(t).value)) == k.parse(t)
  }

  datatype Refused =
    | TooFewArguments
    | BadName(cause: NameError)
    | BadRecipient
    | Unloadable
    | ContactExists
    | GroupExists
    | NameIsContact
    | NameIsGroup
    | UnknownContact
    | UnknownGroup
    | InGroups(groups: set<string>)
    | BadMember(arg: string, cause: NameError)
    | NotSaved(member: string)
    | AlreadyListed(member: string)
    | NoSuchMembers(members: set<string>)
    | LastMember
    | BadKey(member: string)

  datatype Command =
    | AddContact(force: bool, name: string, recipient: Option<Bytes>)
    | RemoveContact(name: string)
    | AddGroup(force: bool, name: string, args: seq<string>)
    | AddMembers(name: string, args: seq<string>)
    | RemoveMembers(name: string, args: seq<string>)
    | RemoveGroup(name: string)

  // ----- loading

  /** What `loadSindookConfig` demands of the saved state. */
  predicate Loads(k: Keys, b: Book) {
    && (forall n :: n in b.contacts ==> Normalize(n) == Ok(n) && k.parse(b.contacts[n]).Some?)
    && (forall g :: g in b.groups ==>
          && Normalize(g) == Ok(g) && b.groups[g] != [] && NoDup(b.groups[g])
          && forall m :: m in b.groups[g] ==> Normalize(m) == Ok(m))
  }

  /** What the commands keep, which is more than loading checks. */
  ghost predicate WellFormed(k: Keys, b: Book) {
    && (forall n :: n in b.contacts ==> Portable(n) && n !in b.groups && k.parse(b.contacts[n]).Some?)
    && (forall g :: g in b.groups ==> Portable(g) && GroupOk(b.contacts, b.groups[g]))
  }

  ghost predicate GroupOk(contacts: map<string, string>, members: seq<string>) {
    members != [] && Increasing(members) && forall m :: m in members ==> m in contacts
  }

  lemma {:induction false} WellFormedLoads(k: Keys, b: Book)
    requires WellFormed(k, b)
    ensures Loads(k, b)
  {
    hide Portable, Normalize, Increasing, NoDup;
    forall n | n in b.contacts
      ensures Normalize(n) == Ok(n)
    {
      PortableIsFixed(n);
    }
    forall g | g in b.groups
      ensures Normalize(g) == Ok(g) && NoDup(b.groups[g])
      ensures forall m :: m in b.groups[g] ==> Normalize(m) == Ok(m)
    {
      PortableIsFixed(g);
      IncreasingNoDup(b.groups[g]);
      forall m | m in b.groups[g]
        ensures Normalize(m) == Ok(m)
      {
        PortableIsFixed(m);
      }
    }
  }

  // ----- member lists

  /** What is wrong with argument i, given the members there already. */
  function Problem(contacts: map<string, string>, args: seq<string>, existing: seq<string>, i: nat): Option<Refused>
    requires i < |args|
  {
    match Normalize(args[i])
    case Err(e) => Some(BadMember(args[i], e))
    case Ok(member) =>
      if member !in contacts then Some(NotSaved(member))
      else if member in existing || exists j :: 0 <= j < i && Normalize(args[j]) == Ok(member) then Some(AlreadyListed(member))
      else None
  }

  function FirstProblem(contacts: map<string, string>, args: seq<string>, existing: seq<string>, from: nat): Option<Refused>
    requires from <= |args|
    decreases |args| - from
  {
    if from == |args| then None
    else if Problem(contacts, args, existing, from).Some? then Problem(contacts, args, existing, from)
    else FirstProblem(contacts, args, existing, from + 1)
  }

  /** The normalized names of the arguments that have one. */
  function Names(args: seq<string>): seq<string> {
    if args == [] then []
    else
      var last := Normalize(args[|args| - 1]);
      Names(args[..|args| - 1]) + if last.Ok? then [last.value] else []
  }

  lemma {:induction false} NamesAre(args: seq<string>, name: string)
    ensures name in Names(args) <==> exists i :: 0 <= i < |args| && Normalize(args[i]) == Ok(name)
  {
    hide Normalize;
    if args != [] {
      var front := args[..|args| - 1];
      NamesAre(front, name);
      if i :| 0 <= i < |args| && Normalize(args[i]) == Ok(name) {
        assert i < |front| ==> front[i] == args[i];
      }
      if i :| 0 <= i < |front| && Normalize(front[i]) == Ok(name) {
        assert args[i] == front[i];
      }
    }
  }

  /** Names every new member once, or reports the first argument in error. */
  method ResolveGroupMembers(contacts: map<string, string>, args: seq<string>, existing: seq<string>)
      returns (r: Result<seq<string>, Refused>)
    ensures r.Err? <==> FirstProblem(contacts, args, existing, 0).Some?
    ensures r.Err? ==> FirstProblem(contacts, args, existing, 0) == Some(r.error)
    ensures r.Ok? ==> r.value == Sort(Names(args))
  {
    hide Normalize;
    var seen := set m | m in existing;
    var members: seq<string> := [];
    for i := 0 to |args|
      invariant members == Names(args[..i])
      invariant forall m :: m in seen <==> m in existing || m in members
      invariant FirstProblem(contacts, args, existing, 0) == FirstProblem(contacts, args, existing, i)
    {
      assert args[..i + 1][..i] == args[..i];
      var normalized := Normalize(args[i]);
      if normalized.Err? {
        return Err(BadMember(args[i], normalized.error));
      }
      var member := normalized.value;
      if member !in contacts {
        return Err(NotSaved(member));
      }
      SeenBefore(args, i, member);
      if member in seen {
        return Err(AlreadyListed(member));
      }
      seen, members := seen + {member}, members + [member];
    }
    assert args[..|args|] == args;
    return Ok(Sort(members));
  }

  lemma {:induction false} SeenBefore(args: seq<string>, i: nat, member: string)
    requires i <= |args|
    ensures member in Names(args[..i]) <==> exists j :: 0 <= j < i && Normalize(args[j]) == Ok(member)
  {
    hide Normalize;
    NamesAre(args[..i], member);
    if j :| 0 <= j < i && Normalize(args[j]) == Ok(member) {
      assert args[..i][j] == args[j];
    }
  }

  function Without(members: seq<string>, removing: set<string>): seq<string> {
    if members == [] then []
    else
      var last := members[|members| - 1];
      Without(members[..|members| - 1], removing) + if last in removing then [] else [last]
  }

  /** The first argument that is no name. */
  function FirstBadName(args: seq<string>, from: nat): Option<Refused>
    requires from <= |args|
    decreases |args| - from
  {
    if from == |args| then None
    else if Normalize(args[from]).Err? then Some(BadMember(args[from], Normalize(args[from]).error))
    else FirstBadName(args, from + 1)
  }

  /** The members that stay, or why none may be removed. */
  method RemainingMembers(members: seq<string>, args: seq<string>) returns (r: Result<seq<string>, Refused>)
    requires NoDup(members)
    ensures r == Remaining(members, args)
  {
    hide Normalize, NoDup;
    var removing: set<string> := {};
    for i := 0 to |args|
      invariant forall m :: m in removing <==> m in Names(args[..i])
      invariant FirstBadName(args, 0) == FirstBadName(args, i)
    {
      assert args[..i + 1][..i] == args[..i];
      var normalized := Normalize(args[i]);
      if normalized.Err? {
        return Err(BadMember(args[i], normalized.error));
      }
      removing := removing + {normalized.value};
    }
    assert args[..|args|] == args;
    ghost var asked := set m | m in Names(args);
    assert removing == asked;
    var left := removing;
    var kept: seq<string> := [];
    for i := 0 to |members|
      invariant kept == Without(members[..i], asked)
      invariant left == asked - (set m | m in members[..i])
    {
      assert members[..i + 1][..i] == members[..i];
      FreshAt(members, i);
      if members[i] in left {
        left := left - {members[i]};
      } else {
        kept := kept + [members[i]];
      }
    }
    assert members[..|members|] == members;
    if left != {} {
      return Err(NoSuchMembers(left));
    }
    if kept == [] {
      return Err(LastMember);
    }
    return Ok(kept);
  }

  lemma FreshAt(members: seq<string>, i: nat)
    requires NoDup(members) && i < |members|
    ensures members[i] !in members[..i]
  {
  }

  function Remaining(members: seq<string>, args: seq<string>): Result<seq<string>, Refused> {
    var asked := set m | m in Names(args);
    if FirstBadName(args, 0).Some? then Err(FirstBadName(args, 0).value)
    else if asked - (set m | m in members) != {} then Err(NoSuchMembers(asked - (set m | m in members)))
    else if Without(members, asked) == [] then Err(LastMember)
    else Ok(Without(members, asked))
  }

  function Joined(contacts: map<string, string>, members: seq<string>, args: seq<string>): Result<seq<string>, Refused> {
    var problem := FirstProblem(contacts, args, members, 0);
    if problem.Some? then Err(problem.value) else Ok(Sort(members + Sort(Names(args))))
  }

  // ----- the commands

  function GroupsContaining(b: Book, name: string): set<string> {
    set g | g in b.groups && name in b.groups[g]
  }

  /** The book after a command, or why the command was refused. */
  function Apply(k: Keys, b: Book, cmd: Command): Result<Book, Refused> {
    match cmd
    case AddContact(force, raw, recipient) => ApplyAddContact(k, b, force, raw, recipient)
    case RemoveContact(raw) => ApplyRemoveContact(k, b, raw)
    case AddGroup(force, raw, args) => ApplyAddGroup(k, b, force, raw, args)
    case AddMembers(raw, args) => ApplyEdit(k, b, raw, args, true)
    case RemoveMembers(raw, args) => ApplyEdit(k, b, raw, args, false)
    case RemoveGroup(raw) => ApplyRemoveGroup(k, b, raw)
  }

  function ApplyAddContact(k: Keys, b: Book, force: bool, raw: string, recipient: Option<Bytes>): Result<Book, Refused> {
    match Normalize(raw)
    case Err(e) => Err(BadName(e))
    case Ok(name) =>
      if recipient.None? then Err(BadRecipient)
      else if !Loads(k, b) then Err(Unloadable)
      else if name in b.contacts && !force then Err(ContactExists)
      else if name in b.groups then Err(NameIsGroup)
      else Ok(b.(contacts := b.contacts[name := k.canonical(recipient.value)]))
  }

  function ApplyRemoveContact(k: Keys, b: Book, raw: string): Result<Book, Refused> {
    match Normalize(raw)
    case Err(e) => Err(BadName(e))
    case Ok(name) =>
      if !Loads(k, b) then Err(Unloadable)
      else if name !in b.contacts then Err(UnknownContact)
      else if GroupsContaining(b, name) != {} then Err(InGroups(GroupsContaining(b, name)))
      else Ok(b.(contacts := b.contacts - {name}))
  }

  function ApplyAddGroup(k: Keys, b: Book, force: bool, raw: string, args: seq<string>): Result<Book, Refused> {
    if args == [] then Err(TooFewArguments)
    else
      match Normalize(raw)
      case Err(e) => Err(BadName(e))
      case Ok(name) =>
        if !Loads(k, b) then Err(Unloadable)
        else if name in b.groups && !force then Err(GroupExists)
        else if name !in b.groups && name in b.contacts then Err(NameIsContact)
        else
          var problem := FirstProblem(b.contacts, args, [], 0);
          if problem.Some? then Err(problem.value)
          else Ok(b.(groups := b.groups[name := Sort(Names(args))]))
  }

  function ApplyEdit(k: Keys, b: Book, raw: string, args: seq<string>, add: bool): Result<Book, Refused> {
    if args == [] then Err(TooFewArguments)
    else
      match Normalize(raw)
      case Err(e) => Err(BadName(e))
      case Ok(name) =>
        if !Loads(k, b) then Err(Unloadable)
        else if name !in b.groups then Err(UnknownGroup)
        else
          var members := if add then Joined(b.contacts, b.groups[name], args) else Remaining(b.groups[name], args);
          if members.Err? then Err(members.error)
          else Ok(b.(groups := b.groups[name := members.value]))
  }

  function ApplyRemoveGroup(k: Keys, b: Book, raw: string): Result<Book, Refused> {
    match Normalize(raw)
    case Err(e) => Err(BadName(e))
    case Ok(name) =>
      if !Loads(k, b) then Err(Unloadable)
      else if name !in b.groups then Err(UnknownGroup)
      else Ok(b.(groups := b.groups - {name}))
  }

  /** The configuration file, edited by one command at a time. */
  class Config {
    const k: Keys
    var contacts: map<string, string>
    var groups: map<string, seq<string>>

    constructor (k: Keys)
      ensures this.k == k && State() == Book(map[], map[])
    {
      this.k, contacts, groups := k, map[], map[];
    }

    function State(): Book
      reads this
    {
      Book(contacts, groups)
    }

    /** What a command that ended with err has done to the saved state. */
    ghost predicate Did(before: Book, cmd: Command, err: Option<Refused>)
      reads this
    {
      match Apply(k, before, cmd)
      case Ok(after) => err.None? && State() == after
      case Err(e) => err == Some(e) && State() == before
    }

    method ContactsAdd(force: bool, raw: string, recipient: Option<Bytes>) returns (err: Option<Refused>)
      modifies this
      ensures Did(old(State()), AddContact(force, raw, recipient), err)
    {
      hide Normalize, Loads;
      var normalized := Normalize(raw);
      if normalized.Err? {
        return Some(BadName(normalized.error));
      }
      var name := normalized.value;
      if recipient.None? {
        return Some(BadRecipient);
      }
      if !Loads(k, State()) {
        return Some(Unloadable);
      }
      if name in contacts && !force {
        return Some(ContactExists);
      }
      if name in groups {
        return Some(NameIsGroup);
      }
      contacts := contacts[name := k.canonical(recipient.value)];
      return None;
    }

    method ContactsRemove(raw: string) returns (err: Option<Refused>)
      modifies this
      ensures Did(old(State()), RemoveContact(raw), err)
    {
      hide Normalize, Loads;
      var normalized := Normalize(raw);
      if normalized.Err? {
        return Some(BadName(normalized.error));
      }
      var name := normalized.value;
      if !Loads(k, State()) {
        return Some(Unloadable);
      }
      if name !in contacts {
        return Some(UnknownContact);
      }
      if GroupsContaining(State(), name) != {} {
        return Some(InGroups(GroupsContaining(State(), name)));
      }
      contacts := contacts - {name};
      return None;
    }

    method GroupAdd(force: bool, raw: string, args: seq<string>) returns (err: Option<Refused>)
      modifies this
      ensures Did(old(State()), AddGroup(force, raw, args), err)
    {
      hide Normalize, Loads, FirstProblem;
      if args == [] {
        return Some(TooFewArguments);
      }
      var normalized := Normalize(raw);
      if normalized.Err? {
        return Some(BadName(normalized.error));
      }
      var name := normalized.value;
      if !Loads(k, State()) {
        return Some(Unloadable);
      }
      if name in groups {
        if !force {
          return Some(GroupExists);
        }
      } else if name in contacts {
        return Some(NameIsContact);
      }
      var members := ResolveGroupMembers(contacts, args, []);
      if members.Err? {
        return Some(members.error);
      }
      groups := groups[name := members.value];
      return None;
    }

    method GroupEdit(raw: string, args: seq<string>, add: bool) returns (err: Option<Refused>)
      modifies this
      ensures Did(old(State()), if add then AddMembers(raw, args) else RemoveMembers(raw, args), err)
    {
      hide Normalize, FirstProblem, Remaining;
      if args == [] {
        return Some(TooFewArguments);
      }
      var normalized := Normalize(raw);
      if normalized.Err? {
        return Some(BadName(normalized.error));
      }
      var name := normalized.value;
      if !Loads(k, State()) {
        return Some(Unloadable);
      }
      if name !in groups {
        return Some(UnknownGroup);
      }
      var members: Result<seq<string>, Refused>;
      if add {
        members := ResolveGroupMembers(contacts, args, groups[name]);
        if members.Ok? {
          members := Ok(Sort(groups[name] + members.value));
        }
      } else {
        members := RemainingMembers(groups[name], args);
      }
      if members.Err? {
        return Some(members.error);
      }
      groups := groups[name := members.value];
      return None;
    }

    method GroupRemove(raw: string) returns (err: Option<Refused>)
      modifies this
      ensures Did(old(State()), RemoveGroup(raw), err)
    {
      hide Normalize, Loads;
      var normalized := Normalize(raw);
      if normalized.Err? {
        return Some(BadName(normalized.error));
      }
      var name := normalized.value;
      if !Loads(k, State()) {
        return Some(Unloadable);
      }
      if name !in groups {
        return Some(UnknownGroup);
      }
      groups := groups - {name};
      return None;
    }

    method Perform(cmd: Command) returns (err: Option<Refused>)
      modifies this
      ensures Did(old(State()), cmd, err)
    {
      hide Apply;
      match cmd
      case AddContact(force, raw, recipient) => err := ContactsAdd(force, raw, recipient);
      case RemoveContact(raw) => err := ContactsRemove(raw);
      case AddGroup(force, raw, args) => err := GroupAdd(force, raw, args);
      case AddMembers(raw, args) => err := GroupEdit(raw, args, true);
      case RemoveMembers(raw, args) => err := GroupEdit(raw, args, false);
      case RemoveGroup(raw) => err := GroupRemove(raw);
    }

    /** Any sequence of commands; a refused one changes nothing. */
    method PerformAll(cmds: seq<Command>)
      requires WellFormed(k, State()) && RoundTrips(k)
      requires forall cmd :: cmd in cmds ==> Given(k, cmd)
      modifies this
      ensures WellFormed(k, State()) && Loads(k, State())
      ensures State() == ApplyAll(k, old(State()), cmds)
    {
      hide Apply, WellFormed, Loads, Given;
      for i := 0 to |cmds|
        invariant WellFormed(k, State())
        invariant State() == ApplyAll(k, old(State()), cmds[..i])
      {
        assert cmds[..i + 1][..i] == cmds[..i];
        ApplyKeeps(k, State(), cmds[i]);
        var err := Perform(cmds[i]);
      }
      assert cmds[..|cmds|] == cmds;
      WellFormedLoads(k, State());
    }
  }

  /** The same from an empty configuration. */
  method PerformFromEmpty(k: Keys, cmds: seq<Command>) returns (config: Config)
    requires RoundTrips(k) && forall cmd :: cmd in cmds ==> Given(k, cmd)
    ensures fresh(config) && config.State() == ApplyAll(k, Book(map[], map[]), cmds)
    ensures WellFormed(k, config.State()) && Loads(k, config.State())
  {
    hide Given, WellFormed, Loads, Apply;
    EmptyIsWellFormed(k);
    config := new Config(k);
    config.PerformAll(cmds);
  }

  function ApplyAll(k: Keys, b: Book, cmds: seq<Command>): Book {
    if cmds == [] then b
    else
      var before := ApplyAll(k, b, cmds[..|cmds| - 1]);
      var r := Apply(k, before, cmds[|cmds| - 1]);
      if r.Ok? then r.value else before
  }

  // ----- the invariant

  /** The recipient of a command, if any, was read from some text. */
  ghost predicate Given(k: Keys, cmd: Command) {
    cmd.AddContact? && cmd.recipient.Some? ==> exists t :: k.parse(t) == cmd.recipient
  }

  lemma EmptyIsWellFormed(k: Keys)
    ensures WellFormed(k, Book(map[], map[]))
  {
  }

  /** Arguments without a problem name saved contacts, all different and new to the group. */
  lemma {:induction false} NoProblems(contacts: map<string, string>, args: seq<string>, existing: seq<string>, from: nat)
    requires from <= |args| && FirstProblem(contacts, args, existing, from).None?
    ensures forall i :: from <= i < |args| ==> Problem(contacts, args, existing, i).None?
    decreases |args| - from
  {
    hide Problem;
    if from < |args| {
      NoProblems(contacts, args, existing, from + 1);
    }
  }

  lemma {:induction false} MembersSaved(contacts: map<string, string>, args: seq<string>, existing: seq<string>)
    requires FirstProblem(contacts, args, existing, 0).None?
    ensures forall m :: m in Names(args) ==> m in contacts && m !in existing
    ensures args != [] ==> Names(args) != []
    ensures FirstBadName(args, 0).None?
  {
    hide Normalize;
    NoProblems(contacts, args, existing, 0);
    forall m | m in Names(args)
      ensures m in contacts && m !in existing
    {
      NamesAre(args, m);
      var i :| 0 <= i < |args| && Normalize(args[i]) == Ok(m);
      assert Problem(contacts, args, existing, i).None?;
    }
    if args != [] {
      assert Problem(contacts, args, existing, 0).None?;
      NamesAre(args, Normalize(args[0]).value);
    }
    assert forall i :: 0 <= i < |args| ==> Normalize(args[i]).Ok? by {
      forall i | 0 <= i < |args|
        ensures Normalize(args[i]).Ok?
      {
        assert Problem(contacts, args, existing, i).None?;
      }
    }
    NoBadName(args, 0);
  }

  lemma {:induction false} NoBadName(args: seq<string>, from: nat)
    requires from <= |args| && forall i :: from <= i < |args| ==> Normalize(args[i]).Ok?
    ensures FirstBadName(args, from).None?
    decreases |args| - from
  {
    hide Normalize;
    if from < |args| {
      NoBadName(args, from + 1);
    }
  }

  lemma {:induction false} WithoutAre(members: seq<string>, removing: set<string>)
    ensures forall m :: m in Without(members, removing) <==> m in members && m !in removing
  {
    if members != [] {
      var front, last := members[..|members| - 1], members[|members| - 1];
      assert members == front + [last];
      WithoutAre(front, removing);
    }
  }

  lemma {:induction false} WithoutIncreasing(members: seq<string>, removing: set<string>)
    requires Increasing(members)
    ensures Increasing(Without(members, removing))
  {
    hide Less;
    if members != [] {
      var front, last := members[..|members| - 1], members[|members| - 1];
      WithoutIncreasing(front, removing);
      WithoutAre(front, removing);
      var kept := Without(front, removing);
      forall i | 0 <= i < |kept|
        ensures Less(kept[i], last)
      {
        assert kept[i] in front;
        var j :| 0 <= j < |front| && front[j] == kept[i];
        assert members[j] == front[j];
      }
    }
  }

  /** A group's new member list, whichever command sets it. */
  lemma NewMembersOk(b: Book, name: string, args: seq<string>)
    requires args != []
    ensures FirstProblem(b.contacts, args, [], 0).None? ==> GroupOk(b.contacts, Sort(Names(args)))
    ensures name in b.groups && GroupOk(b.contacts, b.groups[name]) && Joined(b.contacts, b.groups[name], args).Ok? ==>
              GroupOk(b.contacts, Joined(b.contacts, b.groups[name], args).value)
    ensures name in b.groups && GroupOk(b.contacts, b.groups[name]) && Remaining(b.groups[name], args).Ok? ==>
              GroupOk(b.contacts, Remaining(b.groups[name], args).value)
  {
    hide FirstProblem, Names, Increasing, Sort, Without, FirstBadName;
    if FirstProblem(b.contacts, args, [], 0).None? {
      MembersSaved(b.contacts, args, []);
      SortIncreasing(Names(args));
      assert Names(args)[0] in Sort(Names(args));
    }
    if name in b.groups && GroupOk(b.contacts, b.groups[name]) {
      var members := b.groups[name];
      if FirstProblem(b.contacts, args, members, 0).None? {
        MembersSaved(b.contacts, args, members);
        var all := members + Sort(Names(args));
        SortIncreasing(all);
        assert all[0] in Sort(all);
      }
      WithoutAre(members, set m | m in Names(args));
      WithoutIncreasing(members, set m | m in Names(args));
    }
  }

  /** Every command keeps the book well formed, forced replacement included. */
  lemma {:induction false} ApplyKeeps(k: Keys, b: Book, cmd: Command)
    requires RoundTrips(k) && WellFormed(k, b) && Given(k, cmd)
    ensures Apply(k, b, cmd).Ok? ==> WellFormed(k, Apply(k, b, cmd).value)
  {
    hide Portable, Normalize, Loads, Joined, Remaining, FirstProblem, GroupOk;
    NormalizedIsPortable(cmd.name);
    match cmd
    case AddContact(_, raw, recipient) =>
      if recipient.Some? {
        GivenReads(k, cmd);
      }
      if Normalize(raw).Ok? && recipient.Some? {
        GroupsStay(b, b.contacts[Normalize(raw).value := k.canonical(recipient.value)]);
      }
    case RemoveContact(raw) =>
      if Normalize(raw).Ok? && GroupsContaining(b, Normalize(raw).value) == {} {
        NotNeeded(b, Normalize(raw).value);
      }
    case AddGroup(_, raw, args) =>
      if args != [] && Normalize(raw).Ok? {
        NewMembersOk(b, Normalize(raw).value, args);
      }
    case AddMembers(raw, args) =>
      if args != [] && Normalize(raw).Ok? {
        NewMembersOk(b, Normalize(raw).value, args);
      }
    case RemoveMembers(raw, args) =>
      if args != [] && Normalize(raw).Ok? {
        NewMembersOk(b, Normalize(raw).value, args);
      }
    case RemoveGroup(_) =>
  }

  lemma GroupsStay(b: Book, contacts: map<string, string>)
    requires forall n :: n in b.contacts ==> n in contacts
    ensures forall g :: g in b.groups && GroupOk(b.contacts, b.groups[g]) ==> GroupOk(contacts, b.groups[g])
  {
  }

  lemma NotNeeded(b: Book, name: string)
    requires GroupsContaining(b, name) == {}
    ensures forall g :: g in b.groups && GroupOk(b.contacts, b.groups[g]) ==> GroupOk(b.contacts - {name}, b.groups[g])
  {
    forall g | g in b.groups
      ensures name !in b.groups[g]
    {
      assert g !in GroupsContaining(b, name);
    }
  }

  // ----- what the commands mean

  /** A new group holds exactly the saved contacts its arguments name. */
  lemma {:induction false} GroupIsItsArguments(k: Keys, b: Book, force: bool, raw: string, args: seq<string>, after: Book, m: string)
    requires Apply(k, b, AddGroup(force, raw, args)) == Ok(after)
    ensures var name := Normalize(raw).value;
            && name in after.groups && after.contacts == b.contacts
            && (m in after.groups[name] <==> exists i :: 0 <= i < |args| && Normalize(args[i]) == Ok(m))
  {
    hide Normalize, Loads, FirstProblem;
    NamesAre(args, m);
  }

  /** Editing a group changes its members by exactly the names given, and nothing else. */
  lemma {:induction false} EditedGroup(k: Keys, b: Book, raw: string, args: seq<string>, add: bool, after: Book, m: string)
    requires ApplyEdit(k, b, raw, args, add) == Ok(after)
    ensures var name := Normalize(raw).value;
            && name in b.groups && after == b.(groups := b.groups[name := after.groups[name]])
            && (m in after.groups[name] <==>
                  if add then m in b.groups[name] || m in Names(args) else m in b.groups[name] && m !in Names(args))
  {
    hide Normalize, Loads, FirstProblem, FirstBadName, Without, Names, Sort;
    var name := Normalize(raw).value;
    WithoutAre(b.groups[name], set x | x in Names(args));
  }

  /** Taking the members just added out of a group restores the book. */
  lemma {:induction false} AddThenRemove(k: Keys, b: Book, raw: string, args: seq<string>, after: Book)
    requires WellFormed(k, b) && RoundTrips(k) && Apply(k, b, AddMembers(raw, args)) == Ok(after)
    ensures Apply(k, after, RemoveMembers(raw, args)) == Ok(b)
  {
    hide Normalize, Loads, WellFormed, Names, FirstProblem, FirstBadName, Without, Sort, Increasing;
    var name := Normalize(raw).value;
    ApplyKeeps(k, b, AddMembers(raw, args));
    WellFormedLoads(k, after);
    var earlier, now := b.groups[name], after.groups[name];
    GroupsAreOk(k, b, name);
    GroupsAreOk(k, after, name);
    MembersSaved(b.contacts, args, earlier);
    var asked := set x | x in Names(args);
    WithoutAre(now, asked);
    WithoutIncreasing(now, asked);
    assert forall m :: m in Without(now, asked) <==> m in earlier;
    IncreasingUnique(Without(now, asked), earlier);
    assert after.groups[name := earlier] == b.groups;
  }

  lemma GroupsAreOk(k: Keys, b: Book, g: string)
    requires WellFormed(k, b) && g in b.groups
    ensures GroupOk(b.contacts, b.groups[g])
  {
  }

  /** A group is removed, and nothing else changes. */
  lemma RemovedGroup(k: Keys, b: Book, raw: string, after: Book, other: string)
    requires Apply(k, b, RemoveGroup(raw)) == Ok(after)
    ensures var name := Normalize(raw).value;
            && name in b.groups && name !in after.groups && after.contacts == b.contacts
            && (other != name ==> (other in after.groups <==> other in b.groups))
            && (other in after.groups ==> after.groups[other] == b.groups[other])
  {
    hide Normalize, Loads;
  }

  /** A contact is removed only if no group names it, and nothing else changes. */
  lemma RemovedContact(k: Keys, b: Book, raw: string, after: Book, other: string)
    requires Apply(k, b, RemoveContact(raw)) == Ok(after)
    ensures var name := Normalize(raw).value;
            && name in b.contacts && name !in after.contacts && after.groups == b.groups
            && (forall g :: g in b.groups ==> name !in b.groups[g])
            && (other != name ==> (other in after.contacts <==> other in b.contacts))
            && (other in after.contacts ==> after.contacts[other] == b.contacts[other])
  {
    hide Normalize, Loads;
    var name := Normalize(raw).value;
    forall g | g in b.groups
      ensures name !in b.groups[g]
    {
      assert g !in GroupsContaining(b, name);
    }
  }

  predicate NewMember(contacts: map<string, string>, name: Result<string, NameError>, existing: seq<string>) {
    name.Ok? && name.value in contacts && name.value !in existing
  }

  /** The arguments name different saved contacts that are not in the list yet. */
  ghost predicate NewMembers(contacts: map<string, string>, args: seq<string>, existing: seq<string>) {
    && (forall i :: 0 <= i < |args| ==> NewMember(contacts, Normalize(args[i]), existing))
    && forall i, j :: 0 <= i < j < |args| ==> Normalize(args[i]) != Normalize(args[j])
  }

  lemma {:induction false} NoProblemIff(contacts: map<string, string>, args: seq<string>, existing: seq<string>)
    ensures FirstProblem(contacts, args, existing, 0).None? <==> NewMembers(contacts, args, existing)
  {
    hide Normalize;
    if FirstProblem(contacts, args, existing, 0).None? {
      NoProblems(contacts, args, existing, 0);
      assert forall i :: 0 <= i < |args| ==> Problem(contacts, args, existing, i).None?;
      forall i, j | 0 <= i < j < |args|
        ensures Normalize(args[i]) != Normalize(args[j])
      {
        assert Problem(contacts, args, existing, j).None?;
        assert Normalize(args[j]).Ok? && Normalize(args[i]) != Ok(Normalize(args[j]).value);
      }
      forall i | 0 <= i < |args|
        ensures NewMember(contacts, Normalize(args[i]), existing)
      {
        assert Problem(contacts, args, existing, i).None?;
      }
    }
    if NewMembers(contacts, args, existing) {
      forall i | 0 <= i < |args|
        ensures Problem(contacts, args, existing, i).None?
      {
        assert NewMember(contacts, Normalize(args[i]), existing);
      }
      NothingWrong(contacts, args, existing, 0);
    }
  }

  lemma {:induction false} NothingWrong(contacts: map<string, string>, args: seq<string>, existing: seq<string>, from: nat)
    requires from <= |args| && forall i :: 0 <= i < |args| ==> Problem(contacts, args, existing, i).None?
    ensures FirstProblem(contacts, args, existing, from).None?
    decreases |args| - from
  {
    hide Problem;
    if from < |args| {
      NothingWrong(contacts, args, existing, from + 1);
    }
  }

  /** Which commands a well-formed book accepts: force is needed to replace an entry and never makes a
      contact of a group or a group of a contact. */
  lemma {:induction false} AcceptedIff(k: Keys, b: Book, cmd: Command)
    requires WellFormed(k, b)
    ensures Apply(k, b, cmd).Ok? <==>
              && Normalize(cmd.name).Ok?
              && var name := Normalize(cmd.name).value;
                 match cmd
                 case AddContact(force, _, recipient) => recipient.Some? && name !in b.groups && (force || name !in b.contacts)
                 case RemoveContact(_) => name in b.contacts && forall g :: g in b.groups ==> name !in b.groups[g]
                 case AddGroup(force, _, args) =>
                   args != [] && name !in b.contacts && (force || name !in b.groups) && NewMembers(b.contacts, args, [])
                 case AddMembers(_, args) => args != [] && name in b.groups && NewMembers(b.contacts, args, b.groups[name])
                 case RemoveMembers(_, args) => args != [] && name in b.groups && SomeStay(b.groups[name], args)
                 case RemoveGroup(_) => name in b.groups
  {
    hide Normalize, Loads, FirstProblem, NewMembers, Remaining, Portable, GroupOk, SomeStay;
    WellFormedLoads(k, b);
    if Normalize(cmd.name).Ok? {
      var name := Normalize(cmd.name).value;
      if cmd.RemoveContact? {
        assert GroupsContaining(b, name) == {} <==> forall g :: g in b.groups ==> name !in b.groups[g] by {
          if GroupsContaining(b, name) == {} {
            NotContained(b, name);
          }
        }
      } else if cmd.AddGroup? {
        NoProblemIff(b.contacts, cmd.args, []);
      } else if cmd.AddMembers? && name in b.groups {
        NoProblemIff(b.contacts, cmd.args, b.groups[name]);
      } else if cmd.RemoveMembers? && name in b.groups {
        SomeStayIff(b.groups[name], cmd.args);
      }
    }
  }

  lemma NotContained(b: Book, name: string)
    requires GroupsContaining(b, name) == {}
    ensures forall g :: g in b.groups ==> name !in b.groups[g]
  {
    forall g | g in b.groups
      ensures name !in b.groups[g]
    {
      assert g !in GroupsContaining(b, name);
    }
  }

  /** The arguments name members of the list, but not all of them. */
  ghost predicate SomeStay(members: seq<string>, args: seq<string>) {
    && (forall i :: 0 <= i < |args| ==> Normalize(args[i]).Ok? && Normalize(args[i]).value in members)
    && exists m :: m in members && forall i :: 0 <= i < |args| ==> Normalize(args[i]) != Ok(m)
  }

  lemma {:induction false} SomeStayIff(members: seq<string>, args: seq<string>)
    ensures Remaining(members, args).Ok? <==> SomeStay(members, args)
  {
    hide Normalize, Without, Names;
    BadNameIff(args, 0);
    var asked := set m | m in Names(args);
    forall m
      ensures m in asked <==> exists i :: 0 <= i < |args| && Normalize(args[i]) == Ok(m)
    {
      NamesAre(args, m);
    }
    WithoutAre(members, asked);
    var stay := Without(members, asked);
    assert stay != [] <==> exists m :: m in members && m !in asked by {
      if stay != [] {
        assert stay[0] in stay;
      }
    }
    var known := set m | m in members;
    if FirstBadName(args, 0).None? {
      assert asked - known == {} <==> forall i :: 0 <= i < |args| ==> Normalize(args[i]).value in members by {
        if asked - known == {} {
          forall i | 0 <= i < |args|
            ensures Normalize(args[i]).value in members
          {
            var m := Normalize(args[i]).value;
            assert m in asked;
            assert m !in asked - known;
          }
        }
      }
    }
  }

  lemma {:induction false} BadNameIff(args: seq<string>, from: nat)
    requires from <= |args|
    ensures FirstBadName(args, from).None? <==> forall i :: from <= i < |args| ==> Normalize(args[i]).Ok?
    decreases |args| - from
  {
    hide Normalize;
    if from < |args| {
      BadNameIff(args, from + 1);
    }
  }

  /** A saved state loads exactly when all names in it are portable, every key can be read and every
      group has members, none of them twice. */
  lemma {:induction false} LoadsIff(k: Keys, b: Book)
    ensures Loads(k, b) <==>
              && (forall n :: n in b.contacts ==> Portable(n) && k.parse(b.contacts[n]).Some?)
              && (forall g :: g in b.groups ==> Portable(g) && b.groups[g] != [])
              && (forall g, m :: g in b.groups && m in b.groups[g] ==> Portable(m))
              && (forall g, i, j :: g in b.groups && 0 <= i < j < |b.groups[g]| ==> b.groups[g][i] != b.groups[g][j])
  {
    hide Portable, Normalize;
    forall n
      ensures Portable(n) <==> Normalize(n) == Ok(n)
    {
      PortableIsFixed(n);
    }
  }

  // ----- recipients

  const RESERVED := {"default", "me", "self"}

  /** What stops a group from expanding, at the first member in question. */
  function FirstUnusable(k: Keys, contacts: map<string, string>, members: seq<string>, from: nat): Option<Refused>
    requires from <= |members|
    decreases |members| - from
  {
    if from == |members| then None
    else if members[from] !in contacts then Some(NotSaved(members[from]))
    else if k.parse(contacts[members[from]]).None? then Some(BadKey(members[from]))
    else FirstUnusable(k, contacts, members, from + 1)
  }

  /** The keys of the members that have one, in order. */
  function MemberKeys(k: Keys, contacts: map<string, string>, members: seq<string>): seq<Bytes> {
    if members == [] then []
    else
      var last := members[|members| - 1];
      MemberKeys(k, contacts, members[..|members| - 1])
      + if last in contacts && k.parse(contacts[last]).Some? then [k.parse(contacts[last]).value] else []
  }

  /** `single` is what the argument yields when it is not looked up in the namespace. */
  function Recipients(k: Keys, b: Book, s: string, single: Option<Bytes>): Result<seq<Bytes>, Refused> {
    if s == "" || s[0] != '@' || s[1..] in RESERVED then
      if single.Some? then Ok([single.value]) else Err(BadRecipient)
    else
      match Normalize(s[1..])
      case Err(e) => Err(BadName(e))
      case Ok(name) =>
        if !Loads(k, b) then Err(Unloadable)
        else if name in b.contacts then
          if k.parse(b.contacts[name]).Some? then Ok([k.parse(b.contacts[name]).value]) else Err(BadKey(name))
        else if name !in b.groups then Err(UnknownContact)
        else
          var members := b.groups[name];
          var stop := FirstUnusable(k, b.contacts, members, 0);
          if stop.Some? then Err(stop.value) else Ok(Firsts(MemberKeys(k, b.contacts, members)))
  }

  /** One key, or a group's keys without repetition; repetitions are found by the keys' text. */
  method LoadRecipientKeys(k: Keys, b: Book, s: string, single: Option<Bytes>) returns (r: Result<seq<Bytes>, Refused>)
    requires RoundTrips(k)
    ensures r == Recipients(k, b, s, single)
  {
    hide Normalize, Loads;
    if s == "" || s[0] != '@' || s[1..] in RESERVED {
      if single.None? {
        return Err(BadRecipient);
      }
      return Ok([single.value]);
    }
    var normalized := Normalize(s[1..]);
    if normalized.Err? {
      return Err(BadName(normalized.error));
    }
    var name := normalized.value;
    if !Loads(k, b) {
      return Err(Unloadable);
    }
    if name in b.contacts {
      var pub := k.parse(b.contacts[name]);
      if pub.None? {
        return Err(BadKey(name));
      }
      return Ok([pub.value]);
    }
    if name !in b.groups {
      return Err(UnknownContact);
    }
    r := GroupKeys(k, b.contacts, b.groups[name]);
  }

  method GroupKeys(k: Keys, contacts: map<string, string>, members: seq<string>) returns (r: Result<seq<Bytes>, Refused>)
    requires RoundTrips(k)
    ensures var stop := FirstUnusable(k, contacts, members, 0);
            r == if stop.Some? then Err(stop.value) else Ok(Firsts(MemberKeys(k, contacts, members)))
  {
    hide SeenTexts, RoundTrips, Firsts;
    var keys: seq<Bytes> := [];
    var seen: set<string> := {};
    NothingSeen(k);
    for i := 0 to |members|
      invariant keys == Firsts(MemberKeys(k, contacts, members[..i]))
      invariant SeenTexts(k, seen, keys)
      invariant FirstUnusable(k, contacts, members, 0) == FirstUnusable(k, contacts, members, i)
    {
      assert members[..i + 1][..i] == members[..i];
      var member := members[i];
      if member !in contacts {
        return Err(NotSaved(member));
      }
      var pub := k.parse(contacts[member]);
      if pub.None? {
        return Err(BadKey(member));
      }
      var text := k.canonical(pub.value);
      SeenStep(k, seen, keys, contacts[member]);
      FirstsAppend(MemberKeys(k, contacts, members[..i]), pub.value);
      if text !in seen {
        seen, keys := seen + {text}, keys + [pub.value];
      }
    }
    assert members[..|members|] == members;
    return Ok(keys);
  }

  /** The texts seen are those of the keys kept, and each text stands for one key. */
  ghost predicate SeenTexts(k: Keys, seen: set<string>, keys: seq<Bytes>) {
    && (forall key :: key in keys ==> k.canonical(key) in seen)
    && (forall t :: t in seen ==> k.parse(t).Some? && k.parse(t).value in keys)
  }

  lemma NothingSeen(k: Keys)
    ensures SeenTexts(k, {}, []) && Firsts<Bytes>([]) == []
  {
  }

  lemma SeenStep(k: Keys, seen: set<string>, keys: seq<Bytes>, text: string)
    requires RoundTrips(k) && SeenTexts(k, seen, keys) && k.parse(text).Some?
    ensures var key := k.parse(text).value;
            && (k.canonical(key) in seen <==> key in keys)
            && SeenTexts(k, seen + {k.canonical(key)}, keys + [key])
  {
    var key := k.parse(text).value;
    assert k.parse(k.canonical(key)) == Some(key);
  }

  lemma FirstsAppend(all: seq<Bytes>, key: Bytes)
    ensures Firsts(all + [key]) == if key in Firsts(all) then Firsts(all) else Firsts(all) + [key]
  {
    assert (all + [key])[..|all|] == all;
  }

  lemma {:induction false} AllUsable(k: Keys, contacts: map<string, string>, members: seq<string>, from: nat)
    requires from <= |members|
    requires forall m :: m in members ==> m in contacts && k.parse(contacts[m]).Some?
    ensures FirstUnusable(k, contacts, members, from).None?
    decreases |members| - from
  {
    if from < |members| {
      AllUsable(k, contacts, members, from + 1);
    }
  }

  lemma {:induction false} MemberKeysAre(k: Keys, contacts: map<string, string>, members: seq<string>, key: Bytes)
    requires forall m :: m in members ==> m in contacts
    ensures key in MemberKeys(k, contacts, members) <==> exists m :: m in members && k.parse(contacts[m]) == Some(key)
  {
    if members != [] {
      var front, last := members[..|members| - 1], members[|members| - 1];
      assert members == front + [last];
      MemberKeysAre(k, contacts, front, key);
    }
  }

  /** Every group expands to exactly its members' keys, each once. The name "@" + g reaches it
      exactly when g is not one of the three words that stand for the default identity; a second
      "@" reaches it always. */
  lemma GroupExpands(k: Keys, b: Book, g: string)
    requires WellFormed(k, b) && RoundTrips(k) && g in b.groups
    ensures var keys := Firsts(MemberKeys(k, b.contacts, b.groups[g]));
            && keys != []
            && (forall key :: key in keys <==> exists m :: m in b.groups[g] && k.parse(b.contacts[m]) == Some(key))
            && (forall single :: Recipients(k, b, "@@" + g, single) == Ok(keys))
            && ((forall single :: Recipients(k, b, "@" + g, single) == Ok(keys)) <==> g !in RESERVED)
  {
    hide Portable, Normalize, Loads, Increasing, FirstUnusable, MemberKeys;
    var members := b.groups[g];
    var keys := Firsts(MemberKeys(k, b.contacts, members));
    PortableIsFixed(g);
    WellFormedLoads(k, b);
    AllUsable(k, b.contacts, members, 0);
    forall key
      ensures key in keys <==> exists m :: m in members && k.parse(b.contacts[m]) == Some(key)
    {
      MemberKeysAre(k, b.contacts, members, key);
    }
    assert members[0] in members;
    assert k.parse(b.contacts[members[0]]).value in keys;
    var once, twice := "@" + g, "@@" + g;
    assert once[1..] == g && twice[1..] == "@" + g;
    assert ("@" + g)[0] == '@';
    assert twice[1..] !in RESERVED;
    if g in RESERVED {
      assert Recipients(k, b, once, None) == Err(BadRecipient);
    }
  }

  /** A contact just added, or replaced by force, is what its name stands for, unless the name is
      one of the three reserved words; every other name stands for what it stood for. */
  lemma AddedContactResolves(k: Keys, b: Book, force: bool, raw: string, pub: Bytes, after: Book, other: string)
    requires WellFormed(k, b) && RoundTrips(k) && Given(k, AddContact(force, raw, Some(pub)))
    requires Apply(k, b, AddContact(force, raw, Some(pub))) == Ok(after)
    ensures var name := Normalize(raw).value;
            && (forall single :: Recipients(k, after, "@@" + name, single) == Ok([pub]))
            && ((forall single :: Recipients(k, after, "@" + name, single) == Ok([pub])) <==> name !in RESERVED)
            && after.groups == b.groups && (other != name ==> (other in after.contacts <==> other in b.contacts))
            && (other != name && other in b.contacts ==> after.contacts[other] == b.contacts[other])
  {
    hide Normalize, Portable, Loads, WellFormed, Given;
    var name := Normalize(raw).value;
    ApplyKeeps(k, b, AddContact(force, raw, Some(pub)));
    WellFormedLoads(k, after);
    NormalizedIsPortable(raw);
    PortableIsFixed(name);
    GivenReads(k, AddContact(force, raw, Some(pub)));
    var once, twice := "@" + name, "@@" + name;
    assert once[1..] == name && twice[1..] == "@" + name;
    assert ("@" + name)[0] == '@';
    assert twice[1..] !in RESERVED;
    if name in RESERVED {
      assert Recipients(k, after, once, None) == Err(BadRecipient);
    }
  }

  lemma GivenReads(k: Keys, cmd: Command)
    requires RoundTrips(k) && Given(k, cmd) && cmd.AddContact? && cmd.recipient.Some?
    ensures k.parse(k.canonical(cmd.recipient.value)) == cmd.recipient
  {
    var t :| k.parse(t) == cmd.recipient;
    assert k.parse(t).Some?;
  }

  /** Removing a contact just added under a new name restores the book. */
  lemma AddThenRemoveContact(k: Keys, b: Book, raw: string, pub: Bytes, after: Book)
    requires WellFormed(k, b) && RoundTrips(k) && Given(k, AddContact(false, raw, Some(pub)))
    requires Apply(k, b, AddContact(false, raw, Some(pub))) == Ok(after)
    ensures Apply(k, after, RemoveContact(raw)) == Ok(b)
  {
    hide Normalize, Portable, Loads, Given;
    var name := Normalize(raw).value;
    ApplyKeeps(k, b, AddContact(false, raw, Some(pub)));
    WellFormedLoads(k, after);
    forall g | g in after.groups
      ensures name !in after.groups[g]
    {
      GroupsAreOk(k, b, g);
    }
    assert GroupsContaining(after, name) == {};
    assert after.contacts - {name} == b.contacts;
  }

  /** A recipient that is not looked up is the single key it names; one that is, and is unknown, is
      refused, as is a group with a member that is not saved. */
  lemma {:induction false} OtherRecipients(k: Keys, b: Book, s: string, single: Option<Bytes>)
    requires Loads(k, b)
    ensures s == "" || s[0] != '@' || s in {"@default", "@me", "@self"} ==>
              Recipients(k, b, s, single) == if single.Some? then Ok([single.value]) else Err(BadRecipient)
    ensures s != "" && s[0] == '@' && s !in {"@default", "@me", "@self"} && Normalize(s[1..]).Ok? ==>
              var name := Normalize(s[1..]).value;
              && (name !in b.contacts && name !in b.groups ==> Recipients(k, b, s, single) == Err(UnknownContact))
              && (name !in b.contacts && name in b.groups && (exists m :: m in b.groups[name] && m !in b.contacts) ==>
                    Recipients(k, b, s, single).Err?)
              && (name !in b.contacts && name in b.groups ==> forall i :: 0 <= i < |b.groups[name]| ==>
                    FirstUnsaved(b, b.groups[name], i) ==> Recipients(k, b, s, single) == Err(NotSaved(b.groups[name][i])))
  {
    hide Normalize, Loads;
    if s != "" && s[0] == '@' {
      assert s == ['@'] + s[1..];
      assert "@default"[1..] == "default" && "@me"[1..] == "me" && "@self"[1..] == "self";
      assert ['@'] + "default" == "@default" && ['@'] + "me" == "@me" && ['@'] + "self" == "@self";
      if s[1..] !in RESERVED && Normalize(s[1..]).Ok? {
        var name := Normalize(s[1..]).value;
        if name in b.groups && exists m :: m in b.groups[name] && m !in b.contacts {
          UnsavedStops(k, b.contacts, b.groups[name], 0);
        }
        if name !in b.contacts && name in b.groups {
          forall i | 0 <= i < |b.groups[name]| && FirstUnsaved(b, b.groups[name], i)
            ensures Recipients(k, b, s, single) == Err(NotSaved(b.groups[name][i]))
          {
            LoadsIff(k, b);
            StopsAtFirst(k, b, b.groups[name], 0, i);
          }
        }
      }
    }
  }

  predicate FirstUnsaved(b: Book, members: seq<string>, i: nat)
    requires i < |members|
  {
    members[i] !in b.contacts && forall j :: 0 <= j < i ==> members[j] in b.contacts
  }

  lemma {:induction false} StopsAtFirst(k: Keys, b: Book, members: seq<string>, from: nat, i: nat)
    requires from <= i < |members| && FirstUnsaved(b, members, i)
    requires forall n :: n in b.contacts ==> k.parse(b.contacts[n]).Some?
    ensures FirstUnusable(k, b.contacts, members, from) == Some(NotSaved(members[i]))
    decreases i - from
  {
    if from < i {
      StopsAtFirst(k, b, members, from + 1, i);
    }
  }

  lemma {:induction false} UnsavedStops(k: Keys, contacts: map<string, string>, members: seq<string>, from: nat)
    requires from <= |members|
    ensures (exists i :: from <= i < |members| && members[i] !in contacts) ==> FirstUnusable(k, contacts, members, from).Some?
    decreases |members| - from
  {
    if from < |members| {
      UnsavedStops(k, contacts, members, from + 1);
    }
  }
}
