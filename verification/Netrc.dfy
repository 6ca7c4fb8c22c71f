/** The netrc file: its lexer, its section machine, and what they read back. */
module Netrc {
  import opened Basics

  /** The characters with the White_Space property of Unicode. */
  predicate IsWhitespace(c: char) {
    var n := c as int;
    || 9 <= n <= 13 || n == 0x20 || n == 0x85 || n == 0xA0 || n == 0x1680 || 0x2000 <= n <= 0x200A
    || n == 0x2028 || n == 0x2029 || n == 0x202F || n == 0x205F || n == 0x3000
  }

  // ----- the lexer -----

  datatype Lexer = Lexer(tokens: seq<string>, token: string, quoted: bool, escaped: bool, comment: bool)

  const START := Lexer([], [], false, false, false)

  function Flush(l: Lexer): Lexer {
    if l.token == [] then l else l.(tokens := l.tokens + [l.token], token := [])
  }

  function Step(l: Lexer, c: char): Lexer {
    if l.comment && c != '\n' then l
    else
      var l := l.(comment := false);
      if l.escaped then l.(token := l.token + [c], escaped := false)
      else if c == '\\' then l.(escaped := true)
      else if c == '"' then l.(quoted := !l.quoted)
      else
        var l := l.(comment := c == '#' && !l.quoted);
        if (IsWhitespace(c) || l.comment) && !l.quoted then Flush(l) else l.(token := l.token + [c])
  }

  function Run(l: Lexer, text: string): Lexer
    decreases |text|
  {
    if text == [] then l else Run(Step(l, text[0]), text[1..])
  }

  function Tokens(text: string): Result<seq<string>, Error> {
    var l := Run(START, text);
    if l.quoted || l.escaped then Err(ConfigError) else Ok(Flush(l).tokens)
  }

  method Lex(text: string) returns (r: Result<seq<string>, Error>)
    ensures r == Tokens(text)
  {
    var tokens: seq<string>, token: string := [], [];
    var quoted, escaped, comment := false, false, false;
    for i := 0 to |text|
      invariant Run(Lexer(tokens, token, quoted, escaped, comment), text[i..]) == Run(START, text)
    {
      var c := text[i];
      assert text[i..][0] == c && text[i..][1..] == text[i + 1..];
      if comment {
        if c == '\n' { comment := false; } else { continue; }
      }
      if escaped {
        token := token + [c];
        escaped := false;
        continue;
      }
      if c == '\\' {
        escaped := true;
        continue;
      }
      if c == '"' {
        quoted := !quoted;
        continue;
      }
      if c == '#' && !quoted { comment := true; }
      if (IsWhitespace(c) || comment) && !quoted {
        if token != [] {
          tokens := tokens + [token];
          token := [];
        }
      } else {
        token := token + [c];
      }
    }
    if quoted || escaped { return Err(ConfigError); }
    if token != [] { tokens := tokens + [token]; }
    r := Ok(tokens);
  }

  // ----- how a file may be laid out -----

  datatype Item =
    | Bare(c: char)
    | Escaped(c: char)
    | Quoted(body: string)
    | Gap(c: char)
    | Remark(text: string)

  predicate WellFormed(item: Item) {
    match item
    case Bare(c) => !IsWhitespace(c) && c != '\\' && c != '"' && c != '#'
    case Gap(c) => IsWhitespace(c)
    case Remark(text) => '\n' !in text
    case _ => true
  }

  function EscapeAll(body: string): string {
    if body == [] then []
    else (if body[0] == '\\' || body[0] == '"' then ['\\', body[0]] else [body[0]]) + EscapeAll(body[1..])
  }

  function Spell(item: Item): string {
    match item
    case Bare(c) => [c]
    case Escaped(c) => ['\\', c]
    case Quoted(body) => ['"'] + EscapeAll(body) + ['"']
    case Gap(c) => [c]
    case Remark(text) => ['#'] + text + ['\n']
  }

  function Render(items: seq<Item>): string {
    if items == [] then [] else Spell(items[0]) + Render(items[1..])
  }

  /** The characters an item adds to the current word; gaps and remarks end the word. */
  function Letters(item: Item): Option<string> {
    match item
    case Bare(c) => Some([c])
    case Escaped(c) => Some([c])
    case Quoted(body) => Some(body)
    case _ => None
  }

  /** The nonempty words of a layout; `word` is what the first of them already holds. */
  function Words(word: string, items: seq<Item>): seq<string>
    decreases |items|
  {
    if items == [] then One(word)
    else
      var letters := Letters(items[0]);
      if letters.Some? then Words(word + letters.value, items[1..]) else One(word) + Words([], items[1..])
  }

  function One(word: string): seq<string> { if word == [] then [] else [word] }

  function NonEmpty(words: seq<string>): seq<string> {
    if words == [] then [] else One(words[0]) + NonEmpty(words[1..])
  }

  predicate Plain(l: Lexer) { !l.quoted && !l.escaped && !l.comment }

  lemma {:induction false} RunConcat(l: Lexer, a: string, b: string)
    ensures Run(l, a + b) == Run(Run(l, a), b)
    decreases |a|
  {
    if a == [] {
      assert a + b == b;
    } else {
      assert (a + b)[0] == a[0] && (a + b)[1..] == a[1..] + b;
      RunConcat(Step(l, a[0]), a[1..], b);
    }
  }

  lemma {:induction false} RunEscaped(l: Lexer, body: string)
    requires l.quoted && !l.escaped && !l.comment
    ensures Run(l, EscapeAll(body)) == l.(token := l.token + body)
    decreases |body|
  {
    if body != [] {
      var c := body[0];
      var next := l.(token := l.token + [c]);
      if c == '\\' || c == '"' {
        RunConcat(l, ['\\'], [c]);
        RunOne(l, '\\');
        RunOne(Step(l, '\\'), c);
        assert ['\\'] + [c] == ['\\', c];
        RunConcat(l, ['\\', c], EscapeAll(body[1..]));
      } else {
        RunOne(l, c);
        RunConcat(l, [c], EscapeAll(body[1..]));
      }
      RunEscaped(next, body[1..]);
      assert l.token + [c] + body[1..] == l.token + body;
    } else {
      assert l.token + body == l.token;
    }
  }

  lemma {:induction false} RunComment(l: Lexer, text: string)
    requires l.comment && '\n' !in text
    ensures Run(l, text) == l
    decreases |text|
  {
    if text != [] { RunComment(l, text[1..]); }
  }

  lemma RunOne(l: Lexer, c: char)
    ensures Run(l, [c]) == Step(l, c)
  {
    assert [c][1..] == [];
  }

  function After(l: Lexer, item: Item): Lexer {
    if Letters(item).Some? then l.(token := l.token + Letters(item).value) else Flush(l)
  }

  lemma ItemWords(l: Lexer, items: seq<Item>)
    requires items != []
    ensures var next := After(l, items[0]);
            next.tokens + Words(next.token, items[1..]) == l.tokens + Words(l.token, items)
  {
    if Letters(items[0]) == None {
      var rest := Words([], items[1..]);
      assert l.tokens + (One(l.token) + rest) == (l.tokens + One(l.token)) + rest;
    }
  }

  lemma RunItem(l: Lexer, item: Item)
    requires Plain(l) && WellFormed(item)
    ensures Run(l, Spell(item)) == After(l, item) && Plain(After(l, item))
  {
    match item
    case Bare(c) => RunOne(l, c);
    case Gap(c) => RunOne(l, c);
    case Escaped(c) =>
      RunConcat(l, ['\\'], [c]);
      RunOne(l, '\\');
      RunOne(Step(l, '\\'), c);
      assert ['\\'] + [c] == Spell(item);
    case Quoted(body) =>
      var inside := l.(quoted := true);
      RunConcat(l, ['"'] + EscapeAll(body), ['"']);
      RunConcat(l, ['"'], EscapeAll(body));
      RunOne(l, '"');
      RunEscaped(inside, body);
      RunOne(inside.(token := l.token + body), '"');
    case Remark(text) =>
      var inside := Flush(l).(comment := true);
      RunConcat(l, ['#'] + text, ['\n']);
      RunConcat(l, ['#'], text);
      RunOne(l, '#');
      RunComment(inside, text);
      RunOne(inside, '\n');
  }

  lemma {:induction false} RunItems(l: Lexer, items: seq<Item>)
    requires Plain(l) && forall item | item in items :: WellFormed(item)
    ensures Plain(Run(l, Render(items)))
    ensures Flush(Run(l, Render(items))).tokens == l.tokens + Words(l.token, items)
    decreases |items|
  {
    if items == [] {
    } else {
      RunConcat(l, Spell(items[0]), Render(items[1..]));
      RunItem(l, items[0]);
      ItemWords(l, items);
      RunItems(After(l, items[0]), items[1..]);
    }
  }

  /** However a file mixes bare, escaped and quoted spelling, gaps and remarks, the lexer
      reads its nonempty words. */
  lemma EveryLayoutIsRead(items: seq<Item>)
    requires forall item | item in items :: WellFormed(item)
    ensures Tokens(Render(items)) == Ok(Words([], items))
  {
    RunItems(START, items);
    assert [] + Words([], items) == Words([], items);
  }

  /** A text that stops inside a quotation or after a backslash is refused. */
  lemma OpenQuotingIsRefused(items: seq<Item>, body: string)
    requires forall item | item in items :: WellFormed(item)
    ensures Tokens(Render(items) + ['\\']).Err?
    ensures Tokens(Render(items) + ['"'] + EscapeAll(body)).Err?
  {
    RunItems(START, items);
    var l := Run(START, Render(items));
    RunConcat(START, Render(items), ['\\']);
    RunOne(l, '\\');
    RunConcat(START, Render(items) + ['"'], EscapeAll(body));
    RunConcat(START, Render(items), ['"']);
    RunOne(l, '"');
    RunEscaped(l.(quoted := true), body);
  }

  /** The printer: every token quoted, its backslashes and quotes escaped. */
  function Layout(tokens: seq<string>): seq<Item> {
    if tokens == [] then [] else [Quoted(tokens[0]), Gap(' ')] + Layout(tokens[1..])
  }

  function Print(tokens: seq<string>): string { Render(Layout(tokens)) }

  lemma {:induction false} LayoutWords(tokens: seq<string>)
    ensures Words([], Layout(tokens)) == NonEmpty(tokens)
    ensures forall item | item in Layout(tokens) :: WellFormed(item)
  {
    if tokens == [] {
    } else {
      LayoutWords(tokens[1..]);
      var items := Layout(tokens);
      assert items[1..] == [Gap(' ')] + Layout(tokens[1..]) && items[1..][1..] == Layout(tokens[1..]);
      assert [] + tokens[0] == tokens[0];
      assert Words([], items) == Words(tokens[0], items[1..]);
    }
  }

  lemma {:induction false} NonEmptyKeeps(tokens: seq<string>)
    ensures |NonEmpty(tokens)| <= |tokens|
    ensures NonEmpty(tokens) == tokens <==> [] !in tokens
  {
    if tokens != [] {
      NonEmptyKeeps(tokens[1..]);
      assert tokens == [tokens[0]] + tokens[1..];
      if tokens[0] != [] {
        assert NonEmpty(tokens)[1..] == NonEmpty(tokens[1..]);
      }
    }
  }

  /** The lexer undoes the printer exactly on lists of nonempty tokens; it drops empty ones. */
  lemma LexerUndoesPrinter(tokens: seq<string>)
    ensures Tokens(Print(tokens)) == Ok(NonEmpty(tokens))
    ensures Tokens(Print(tokens)) == Ok(tokens) <==> [] !in tokens
  {
    LayoutWords(tokens);
    EveryLayoutIsRead(Layout(tokens));
    NonEmptyKeeps(tokens);
  }

  // ----- the section machine -----

  function Complete(user: Option<string>, password: Option<string>): Result<Option<Credential>, Error> {
    if user.Some? && password.Some? then Ok(Some(Basic(user.value, password.value))) else Err(ConfigError)
  }

  predicate OpensSection(token: string) { token == "machine" || token == "default" }

  predicate NamesField(token: string) { token == "login" || token == "password" || token == "account" }

  function Scan(tokens: seq<string>, host: string,
                machine: Option<string>, user: Option<string>, password: Option<string>)
    : Result<Option<Credential>, Error>
    decreases |tokens|
  {
    if tokens == [] then
      if machine == Some(host) then Complete(user, password) else Ok(None)
    else if OpensSection(tokens[0]) then
      if machine == Some(host) then Complete(user, password)
      else if tokens[0] == "default" then Scan(tokens[1..], host, None, None, None)
      else if |tokens| == 1 then Ok(None)
      else Scan(tokens[2..], host, Some(tokens[1]), None, None)
    else if NamesField(tokens[0]) then
      if |tokens| == 1 then Err(ConfigError)
      else Scan(tokens[2..], host, machine,
                if tokens[0] == "login" then Some(tokens[1]) else user,
                if tokens[0] == "password" then Some(tokens[1]) else password)
    else Err(ConfigError)
  }

  function Lookup(text: string, host: string): Result<Option<Credential>, Error> {
    var tokens := Tokens(text);
    if tokens.Err? then Err(tokens.error) else Scan(tokens.value, host, None, None, None)
  }

  method ParseNetrc(text: string, host: string) returns (r: Result<Option<Credential>, Error>)
    ensures r == Lookup(text, host)
  {
    var lexed := Lex(text);
    if lexed.Err? { return Err(lexed.error); }
    var tokens := lexed.value;
    var i := 0;
    var machine: Option<string>, user: Option<string>, password: Option<string> := None, None, None;
    while i < |tokens|
      invariant 0 <= i <= |tokens| + 1
      invariant Scan(tokens[Min(i, |tokens|)..], host, machine, user, password) == Scan(tokens, host, None, None, None)
    {
      var rest := tokens[i..];
      var field := tokens[i];
      assert rest[0] == field && rest[1..] == tokens[i + 1..];
      assert i + 2 <= |tokens| ==> rest[1] == tokens[i + 1] && rest[2..] == tokens[i + 2..];
      if field == "machine" || field == "default" {
        if machine == Some(host) { return Complete(user, password); }
        machine, user, password := None, None, None;
        if field == "machine" {
          i := i + 1;
          machine := if i < |tokens| then Some(tokens[i]) else None;
        }
      } else if field == "login" || field == "password" || field == "account" {
        i := i + 1;
        if i >= |tokens| { return Err(ConfigError); }
        if field == "login" { user := Some(tokens[i]); }
        if field == "password" { password := Some(tokens[i]); }
      } else {
        return Err(ConfigError);
      }
      i := i + 1;
    }
    r := if machine == Some(host) then Complete(user, password) else Ok(None);
  }

  // ----- what a file means -----

  datatype Field = Login(value: string) | Password(value: string) | Account(value: string)

  datatype Section = Machine(name: string, fields: seq<Field>) | Default(fields: seq<Field>)

  /** Fields before the first section belong to no machine. */
  datatype File = File(orphans: seq<Field>, sections: seq<Section>)

  function FieldName(f: Field): (name: string)
    ensures NamesField(name) && !OpensSection(name)
    ensures name == "login" <==> f.Login?
    ensures name == "password" <==> f.Password?
  {
    match f case Login(_) => "login" case Password(_) => "password" case Account(_) => "account"
  }

  function FieldTokens(fields: seq<Field>): seq<string> {
    if fields == [] then [] else [FieldName(fields[0]), fields[0].value] + FieldTokens(fields[1..])
  }

  function Heading(s: Section): (tokens: seq<string>)
    ensures |tokens| == if s.Machine? then 2 else 1
    ensures OpensSection(tokens[0]) && (tokens[0] == "default" <==> s.Default?)
    ensures s.Machine? ==> tokens[1] == s.name
  {
    match s case Machine(name, _) => ["machine", name] case Default(_) => ["default"]
  }

  function SectionTokens(sections: seq<Section>): seq<string> {
    if sections == [] then []
    else
      Heading(sections[0]) + FieldTokens(sections[0].fields) + SectionTokens(sections[1..])
  }

  function FileTokens(file: File): seq<string> { FieldTokens(file.orphans) + SectionTokens(file.sections) }

  /** The last login, and the last password, written among some fields. */
  function LastLogin(fields: seq<Field>): Option<string> {
    if fields == [] then None
    else
      var last := fields[|fields| - 1];
      if last.Login? then Some(last.value) else LastLogin(fields[..|fields| - 1])
  }

  function LastPassword(fields: seq<Field>): Option<string> {
    if fields == [] then None
    else
      var last := fields[|fields| - 1];
      if last.Password? then Some(last.value) else LastPassword(fields[..|fields| - 1])
  }

  /** The first section of a host. */
  function SectionOf(sections: seq<Section>, host: string): (r: Option<Section>)
    ensures r.Some? ==> r.value in sections && r.value.Machine? && r.value.name == host
    ensures r == None ==> forall s | s in sections :: s.Machine? ==> s.name != host
  {
    if sections == [] then None
    else if sections[0].Machine? && sections[0].name == host then Some(sections[0])
    else SectionOf(sections[1..], host)
  }

  /** What a file says about a host: its first section alone decides. */
  function Answer(sections: seq<Section>, host: string): Result<Option<Credential>, Error> {
    var s := SectionOf(sections, host);
    if s == None then Ok(None) else Complete(LastLogin(s.value.fields), LastPassword(s.value.fields))
  }

  function Or(a: Option<string>, b: Option<string>): Option<string> { if a.Some? then a else b }

  lemma ScanField(f: Field, rest: seq<string>, host: string,
                  machine: Option<string>, user: Option<string>, password: Option<string>)
    ensures Scan([FieldName(f), f.value] + rest, host, machine, user, password) ==
            Scan(rest, host, machine, if f.Login? then Some(f.value) else user,
                 if f.Password? then Some(f.value) else password)
  {
    var tokens := [FieldName(f), f.value] + rest;
    assert tokens[0] == FieldName(f) && tokens[1] == f.value && tokens[2..] == rest;
  }

  /** The machine reads a run of fields, later ones overriding, and goes on after them. */
  lemma {:induction false} ScanFields(fields: seq<Field>, rest: seq<string>, host: string,
                                     machine: Option<string>, user: Option<string>, password: Option<string>)
    ensures Scan(FieldTokens(fields) + rest, host, machine, user, password)
         == Scan(rest, host, machine, Or(LastLogin(fields), user), Or(LastPassword(fields), password))
    decreases |fields|
  {
    if fields == [] {
      assert FieldTokens(fields) + rest == rest;
    } else {
      var f := fields[0];
      var more := FieldTokens(fields[1..]) + rest;
      assert FieldTokens(fields) + rest == [FieldName(f), f.value] + more;
      ScanField(f, more, host, machine, user, password);
      LastOfCons(fields);
      ScanFields(fields[1..], rest, host, machine,
                 if f.Login? then Some(f.value) else user, if f.Password? then Some(f.value) else password);
    }
  }

  lemma {:induction false} LastOfCons(fields: seq<Field>)
    requires fields != []
    ensures LastLogin(fields) == Or(LastLogin(fields[1..]), if fields[0].Login? then Some(fields[0].value) else None)
    ensures LastPassword(fields)
         == Or(LastPassword(fields[1..]), if fields[0].Password? then Some(fields[0].value) else None)
    decreases |fields|
  {
    if |fields| == 1 {
      assert fields[1..] == [] && fields[..0] == [];
    } else {
      var front := fields[..|fields| - 1];
      LastOfCons(front);
      assert fields[1..][..|fields| - 2] == front[1..] && fields[1..][|fields| - 2] == fields[|fields| - 1];
    }
  }

  /** An unknown field name, or a field name whose value is missing. */
  predicate Broken(tail: seq<string>) {
    tail != [] && !OpensSection(tail[0]) && (NamesField(tail[0]) ==> |tail| == 1)
  }

  /** The answer of sections followed by something malformed: only a section closed by the
      start of another can still answer. */
  function AnswerBeforeBreak(sections: seq<Section>, host: string): Result<Option<Credential>, Error> {
    if sections != [] && SectionOf(sections[..|sections| - 1], host).Some?
    then Answer(sections[..|sections| - 1], host)
    else Err(ConfigError)
  }

  function Expected(sections: seq<Section>, tail: seq<string>, host: string): Result<Option<Credential>, Error> {
    if tail == [] then Answer(sections, host) else AnswerBeforeBreak(sections, host)
  }

  lemma ScanHeading(s: Section, rest: seq<string>, host: string,
                    machine: Option<string>, user: Option<string>, password: Option<string>)
    ensures Scan(Heading(s) + rest, host, machine, user, password) ==
            (if machine == Some(host) then Complete(user, password)
             else Scan(rest, host, if s.Machine? then Some(s.name) else None, None, None))
  {
    var h := Heading(s);
    var tokens := h + rest;
    assert tokens[0] == h[0];
    if s.Machine? {
      assert tokens[1] == s.name && tokens[2..] == rest;
    } else {
      assert tokens[1..] == rest;
    }
  }

  lemma JoinSections(sections: seq<Section>, tail: seq<string>)
    requires sections != []
    ensures SectionTokens(sections) + tail ==
            Heading(sections[0]) + (FieldTokens(sections[0].fields) + (SectionTokens(sections[1..]) + tail))
  {
  }

  lemma ScanOne(sections: seq<Section>, tail: seq<string>, host: string,
                machine: Option<string>, user: Option<string>, password: Option<string>)
    requires sections != []
    ensures var s := sections[0];
            Scan(SectionTokens(sections) + tail, host, machine, user, password) ==
            (if machine == Some(host) then Complete(user, password)
             else Scan(SectionTokens(sections[1..]) + tail, host, if s.Machine? then Some(s.name) else None,
                       LastLogin(s.fields), LastPassword(s.fields)))
  {
    var s := sections[0];
    var rest := SectionTokens(sections[1..]) + tail;
    JoinSections(sections, tail);
    ScanHeading(s, FieldTokens(s.fields) + rest, host, machine, user, password);
    ScanFields(s.fields, rest, host, if s.Machine? then Some(s.name) else None, None, None);
  }

  lemma ExpectedOfCons(sections: seq<Section>, tail: seq<string>, host: string)
    requires sections != []
    ensures var s := sections[0];
            Expected(sections, tail, host) ==
            (if |sections| == 1 && tail != [] then Err(ConfigError)
             else if s.Machine? && s.name == host then Complete(LastLogin(s.fields), LastPassword(s.fields))
             else Expected(sections[1..], tail, host))
  {
    if |sections| == 1 {
      assert sections[..0] == [];
    } else {
      assert sections[..|sections| - 1][1..] == sections[1..][..|sections| - 2];
    }
  }

  lemma {:induction false} ScanSections(sections: seq<Section>, tail: seq<string>, host: string,
                                       machine: Option<string>, user: Option<string>, password: Option<string>)
    requires tail == [] || Broken(tail)
    ensures Scan(SectionTokens(sections) + tail, host, machine, user, password) ==
            (if sections == [] && tail != [] then Err(ConfigError)
             else if machine == Some(host) then Complete(user, password)
             else Expected(sections, tail, host))
    decreases |sections|
  {
    if sections == [] {
      assert SectionTokens(sections) + tail == tail;
    } else {
      var s := sections[0];
      var named := if s.Machine? then Some(s.name) else None;
      ScanOne(sections, tail, host, machine, user, password);
      ScanSections(sections[1..], tail, host, named, LastLogin(s.fields), LastPassword(s.fields));
      ExpectedOfCons(sections, tail, host);
    }
  }

  /** Over a well-formed file the machine answers with the first section of the host, never
      with a field of another section, of `default`, or before any section. */
  lemma FirstSectionAnswers(file: File, host: string)
    ensures Scan(FileTokens(file), host, None, None, None) == Answer(file.sections, host)
  {
    var sections := SectionTokens(file.sections);
    ScanFields(file.orphans, sections, host, None, None, None);
    ScanSections(file.sections, [], host, None, LastLogin(file.orphans), LastPassword(file.orphans));
    assert sections + [] == sections;
  }

  /** A file that runs into an unknown or unfinished field is refused, whatever follows, unless
      a complete section of the host has already been closed. */
  lemma MalformedFilesAreRefused(file: File, tail: seq<string>, host: string)
    requires Broken(tail)
    ensures Scan(FileTokens(file) + tail, host, None, None, None) == AnswerBeforeBreak(file.sections, host)
  {
    var sections := SectionTokens(file.sections) + tail;
    ScanFields(file.orphans, sections, host, None, None, None);
    ScanSections(file.sections, tail, host, None, LastLogin(file.orphans), LastPassword(file.orphans));
    assert FileTokens(file) + tail == FieldTokens(file.orphans) + sections;
  }

  /** End to end: a printed file whose values are nonempty gives each host its own section. */
  lemma PrintedFileAnswers(file: File, host: string)
    requires [] !in FileTokens(file)
    ensures Lookup(Print(FileTokens(file)), host) == Answer(file.sections, host)
  {
    LexerUndoesPrinter(FileTokens(file));
    FirstSectionAnswers(file, host);
  }

  // ----- empty values -----

  /** What a printed file says when values may be empty: the machine reads what is left. */
  lemma PrintedFileIsScanned(file: File, host: string)
    ensures Lookup(Print(FileTokens(file)), host) == Scan(NonEmpty(FileTokens(file)), host, None, None, None)
  {
    LexerUndoesPrinter(FileTokens(file));
  }

  lemma {:induction false} NonEmptyConcat(a: seq<string>, b: seq<string>)
    ensures NonEmpty(a + b) == NonEmpty(a) + NonEmpty(b)
    decreases |a|
  {
    if a == [] {
      assert a + b == b;
    } else {
      assert (a + b)[1..] == a[1..] + b;
      NonEmptyConcat(a[1..], b);
    }
  }

  lemma FieldTokensOfOne(f: Field)
    ensures FieldTokens([f]) == [FieldName(f), f.value]
  {
    assert [f][1..] == [];
  }

  lemma SectionTokensOfOne(s: Section)
    ensures SectionTokens([s]) == Heading(s) + FieldTokens(s.fields)
  {
    assert [s][1..] == [];
  }

  function LoginSection(host: string, user: string, secret: string): Section {
    Machine(host, [Login(user), Password(secret)])
  }

  lemma LoginSectionMeans(host: string, user: string, secret: string, more: seq<Section>)
    ensures SectionTokens([LoginSection(host, user, secret)]) == ["machine", host, "login", user, "password", secret]
    ensures Answer([LoginSection(host, user, secret)] + more, host) == Ok(Some(Basic(user, secret)))
  {
    var s := LoginSection(host, user, secret);
    assert s.fields[1..] == [Password(secret)] && s.fields[..1] == [Login(user)];
    assert LastLogin(s.fields) == LastLogin([Login(user)]) == Some(user);
    assert ([s] + more)[0] == s;
    FieldTokensOfOne(Password(secret));
    assert FieldTokens(s.fields) == ["login", user] + ["password", secret];
    SectionTokensOfOne(s);
    assert Heading(s) == ["machine", host];
  }

  /** The harm an empty value does: the password of any host and user, printed empty before a
      default section, is read back as the word "default". */
  lemma EmptyPasswordIsReplaced(host: string, user: string)
    requires host != [] && user != []
    ensures var file := File([], [LoginSection(host, user, "")] + [Default([])]);
            && Answer(file.sections, host) == Ok(Some(Basic(user, "")))
            && Lookup(Print(FileTokens(file)), host) == Ok(Some(Basic(user, "default")))
  {
    var file := File([], [LoginSection(host, user, "")] + [Default([])]);
    LoginSectionMeans(host, user, "", [Default([])]);
    LoginSectionMeans(host, user, "default", []);
    SectionTokensOfOne(Default([]));
    SectionTokensConcat([LoginSection(host, user, "")], [Default([])]);
    var front := ["machine", host, "login", user, "password"];
    assert FileTokens(file) == front + ["", "default"];
    DropsTheBlank(front);
    PrintedFileIsScanned(file, host);
    var read := File([], [LoginSection(host, user, "default")]);
    assert FileTokens(read) == front + ["default"];
    assert [LoginSection(host, user, "default")] + [] == read.sections;
    FirstSectionAnswers(read, host);
  }

  lemma DropsTheBlank(front: seq<string>)
    requires [] !in front
    ensures NonEmpty(front + ["", "default"]) == front + ["default"]
  {
    NonEmptyConcat(front, ["", "default"]);
    NonEmptyKeeps(front);
    assert ["", "default"][1..] == ["default"] && ["default"][1..] == [];
  }

  const HARMLESS: File := File([Account("")], [Default([])])

  lemma HarmlessTokens()
    ensures FileTokens(HARMLESS) == ["account"] + ["", "default"]
    ensures FileTokens(File([Account("default")], [])) == ["account"] + ["default"]
  {
    FieldTokensOfOne(Account(""));
    FieldTokensOfOne(Account("default"));
    SectionTokensOfOne(Default([]));
    assert SectionTokens([Default([])]) == ["default"];
  }

  /** The converse of PrintedFileAnswers does not hold: this file has an empty value and is read
      as meant for every host. */
  lemma EmptyValueCanBeHarmless(host: string)
    ensures [] in FileTokens(HARMLESS)
    ensures Lookup(Print(FileTokens(HARMLESS)), host) == Answer(HARMLESS.sections, host)
  {
    HarmlessTokens();
    assert FileTokens(HARMLESS)[1] == [];
    DropsTheBlank(["account"]);
    PrintedFileIsScanned(HARMLESS, host);
    FirstSectionAnswers(File([Account("default")], []), host);
    assert HARMLESS.sections[1..] == [];
  }

  /** Where it does hold: if only the last value of a file is empty, the file is as good as
      broken off there, so exactly the hosts with a section closed before the last one are
      still answered, and all others get an error. */
  lemma EmptyLastValueBreaksTheFile(file: File, name: Field, host: string)
    requires [] !in FileTokens(file) && name.value == []
    ensures Lookup(Print(FileTokens(file) + [FieldName(name), ""]), host) == AnswerBeforeBreak(file.sections, host)
  {
    var tokens, tail := FileTokens(file), [FieldName(name)];
    NonEmptyConcat(tokens, tail + [""]);
    NonEmptyConcat(tail, [""]);
    NonEmptyKeeps(tokens);
    NonEmptyKeeps(tail);
    assert tail + [""] == [FieldName(name), ""];
    assert NonEmpty([""]) == [] by { assert [""][1..] == []; }
    assert tail + [] == tail;
    LexerUndoesPrinter(tokens + [FieldName(name), ""]);
    MalformedFilesAreRefused(file, tail, host);
  }

  lemma ClosedFileAnswers(file: File, tail: seq<string>, host: string)
    requires SectionOf(file.sections, host).Some? && tail != [] && OpensSection(tail[0])
    ensures Scan(FileTokens(file) + tail, host, None, None, None) == Answer(file.sections, host)
  {
    var rest := SectionTokens(file.sections) + tail;
    assert FileTokens(file) + tail == FieldTokens(file.orphans) + rest;
    ScanFields(file.orphans, rest, host, None, None, None);
    ScanUntilClosed(file.sections, tail, host, None, LastLogin(file.orphans), LastPassword(file.orphans));
  }

  lemma TokensOfWhole(file: File, more: seq<Section>)
    ensures FileTokens(File(file.orphans, file.sections + more)) == FileTokens(file) + SectionTokens(more)
  {
    SectionTokensConcat(file.sections, more);
  }

  lemma TokensBeforeBlank(file: File, more: seq<Section>)
    requires [] !in FileTokens(file)
    ensures NonEmpty(FileTokens(File(file.orphans, file.sections + more))) ==
            FileTokens(file) + NonEmpty(SectionTokens(more))
  {
    var tokens, rest := FileTokens(file), SectionTokens(more);
    TokensOfWhole(file, more);
    NonEmptyKeeps(tokens);
    NonEmptyConcat(tokens, rest);
  }

  /** A host whose section is closed before the first empty value is answered as meant. */
  lemma ClosedSectionsAnswer(file: File, more: seq<Section>, host: string)
    requires [] !in FileTokens(file) && SectionOf(file.sections, host).Some? && more != []
    ensures var whole := File(file.orphans, file.sections + more);
            Lookup(Print(FileTokens(whole)), host) == Answer(whole.sections, host)
  {
    TokensBeforeBlank(file, more);
    FirstTokenOpens(more);
    PrintedFileIsScanned(File(file.orphans, file.sections + more), host);
    ClosedFileAnswers(file, NonEmpty(SectionTokens(more)), host);
    SectionOfConcat(file.sections, more, host);
  }

  lemma FirstTokenOpens(more: seq<Section>)
    requires more != []
    ensures NonEmpty(SectionTokens(more)) != [] && OpensSection(NonEmpty(SectionTokens(more))[0])
  {
    assert SectionTokens(more)[0] == Heading(more[0])[0];
  }

  lemma {:induction false} SectionTokensConcat(a: seq<Section>, b: seq<Section>)
    ensures SectionTokens(a + b) == SectionTokens(a) + SectionTokens(b)
    decreases |a|
  {
    if a == [] {
      assert a + b == b;
    } else {
      assert (a + b)[1..] == a[1..] + b;
      SectionTokensConcat(a[1..], b);
    }
  }

  lemma {:induction false} SectionOfConcat(a: seq<Section>, b: seq<Section>, host: string)
    requires SectionOf(a, host).Some?
    ensures SectionOf(a + b, host) == SectionOf(a, host)
    decreases |a|
  {
    assert (a + b)[1..] == a[1..] + b;
    if !(a[0].Machine? && a[0].name == host) { SectionOfConcat(a[1..], b, host); }
  }

  /** Once a section of the host is closed by the start of another, it has answered. */
  lemma {:induction false} ScanUntilClosed(sections: seq<Section>, tail: seq<string>, host: string,
                                          machine: Option<string>, user: Option<string>, password: Option<string>)
    requires tail != [] && OpensSection(tail[0])
    requires machine == Some(host) || SectionOf(sections, host).Some?
    ensures Scan(SectionTokens(sections) + tail, host, machine, user, password) ==
            if machine == Some(host) then Complete(user, password) else Answer(sections, host)
    decreases |sections|
  {
    if sections == [] {
      assert SectionTokens(sections) + tail == tail;
    } else {
      var s := sections[0];
      ScanOne(sections, tail, host, machine, user, password);
      if machine != Some(host) {
        ScanUntilClosed(sections[1..], tail, host, if s.Machine? then Some(s.name) else None,
                        LastLogin(s.fields), LastPassword(s.fields));
      }
    }
  }
}
