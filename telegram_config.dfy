/**
  Reading the messaging credentials (bot.py:15-32). The file itself is
  outside the model: its text arrives as `Some(text)`, or `None` when
  the file does not exist.
 */
module TelegramConfig {
  import opened Wrappers
  import opened Text

  /** The marker left in the template file; a credential holding it is not filled in. */
  const Placeholder: string := "\U{0412}\U{0421}\U{0422}\U{0410}\U{0412}\U{042C}"
  const TokenKey: string := "BOT_TOKEN"
  const ChatKey: string := "CHAT_ID"

  datatype Credentials = Credentials(token: string, chatId: string)

  /** A line is an entry when it holds an "=". */
  predicate IsEntry(line: string) {
    '=' in line
  }

  /** Where the key starts: the first non-space character of the line. */
  function KeyStart(line: string): nat
    requires IsEntry(line)
  {
    LeadingSpaces(line[..IndexOf(line, '=')])
  }

  /** Where the text after the first "=" begins. */
  function AfterSeparator(line: string): nat
    requires IsEntry(line)
  {
    IndexOf(line, '=') + 1
  }

  /** Where the value starts: the first non-space character after the first "=". */
  function ValueStart(line: string): nat
    requires IsEntry(line)
  {
    AfterSeparator(line) + LeadingSpaces(line[AfterSeparator(line)..])
  }

  /** The stripped text before the first "=". */
  function KeyOf(line: string): string
    requires IsEntry(line)
  {
    Strip(line[..IndexOf(line, '=')])
  }

  /** The stripped text after the first "=" (later "=" signs stay in the value). */
  function ValueOf(line: string): string
    requires IsEntry(line)
  {
    Strip(line[AfterSeparator(line)..])
  }

  /**
    What `key, value = line.split("=", 1)` followed by two strips yields: a
    key free of "=" taken from before the first "=", a value taken from after
    it, both with no surrounding whitespace.
   */
  lemma EntryParts(line: string)
    requires IsEntry(line)
    ensures '=' !in KeyOf(line) && Strip(KeyOf(line)) == KeyOf(line)
    ensures OccursAt(line, KeyOf(line), KeyStart(line)) && KeyStart(line) + |KeyOf(line)| <= IndexOf(line, '=')
    ensures Strip(ValueOf(line)) == ValueOf(line)
    ensures OccursAt(line, ValueOf(line), ValueStart(line)) && IndexOf(line, '=') < ValueStart(line)
  {
    KeyPart(line);
    ValuePart(line);
  }

  lemma KeyPart(line: string)
    requires IsEntry(line)
    ensures '=' !in KeyOf(line) && Strip(KeyOf(line)) == KeyOf(line)
    ensures OccursAt(line, KeyOf(line), KeyStart(line)) && KeyStart(line) + |KeyOf(line)| <= IndexOf(line, '=')
  {
    var eq := IndexOf(line, '=');
    var raw := line[..eq];
    assert '=' !in raw by {
      forall k | 0 <= k < |raw| ensures raw[k] != '=' { assert raw[k] == line[k]; }
    }
    StripKeepsOut(raw, '=');
    StripIdempotent(raw);
    StripOccursBefore(line, eq);
  }

  lemma ValuePart(line: string)
    requires IsEntry(line)
    ensures Strip(ValueOf(line)) == ValueOf(line)
    ensures OccursAt(line, ValueOf(line), ValueStart(line)) && IndexOf(line, '=') < ValueStart(line)
  {
    ValueStripped(line);
    ValueOccurs(line);
  }

  lemma ValueStripped(line: string)
    requires IsEntry(line)
    ensures Strip(ValueOf(line)) == ValueOf(line)
  {
    StripIdempotent(line[AfterSeparator(line)..]);
  }

  lemma ValueOccurs(line: string)
    requires IsEntry(line)
    ensures OccursAt(line, ValueOf(line), ValueStart(line))
  {
    StripOccursAfter(line, AfterSeparator(line));
  }

  predicate DefinesKey(line: string, key: string) {
    IsEntry(line) && KeyOf(line) == key
  }

  /**
    The lines of the file: the whole text stripped, then split at every
    newline; no line holds a newline, and joined back they give the stripped text.
   */
  function Lines(text: string): (lines: seq<string>)
    ensures |lines| >= 1
    ensures forall k :: 0 <= k < |lines| ==> '\n' !in lines[k]
    ensures Join(lines, '\n') == Strip(text)
  {
    SplitPiecesFree(Strip(text), '\n');
    JoinSplit(Strip(text), '\n');
    Split(Strip(text), '\n')
  }

  /** The dictionary the loop at bot.py:21-24 fills from the lines, read in order. */
  function Entries(lines: seq<string>): map<string, string>
    decreases |lines|
  {
    if lines == [] then map[]
    else
      var config := Entries(lines[..|lines| - 1]);
      var line := lines[|lines| - 1];
      if IsEntry(line) then config[KeyOf(line) := ValueOf(line)] else config
  }

  /** Every key of the dictionary is free of "=", and keys and values carry no surrounding whitespace. */
  lemma {:induction false} EntriesAreClean(lines: seq<string>)
    ensures forall key :: key in Entries(lines) ==>
      '=' !in key && Strip(key) == key && Strip(Entries(lines)[key]) == Entries(lines)[key]
    decreases |lines|
  {
    if lines != [] {
      var line := lines[|lines| - 1];
      EntriesAreClean(lines[..|lines| - 1]);
      if IsEntry(line) {
        EntryParts(line);
      }
    }
  }

  /** Index of the last line that defines `key`, or -1 when none does. */
  function LastDefinition(lines: seq<string>, key: string): (j: int)
    ensures -1 <= j < |lines|
    ensures j >= 0 ==> DefinesKey(lines[j], key)
    ensures forall i :: j < i < |lines| ==> !DefinesKey(lines[i], key)
    decreases |lines|
  {
    if lines == [] then -1
    else if DefinesKey(lines[|lines| - 1], key) then |lines| - 1
    else LastDefinition(lines[..|lines| - 1], key)
  }

  /**
    A key is in the dictionary exactly when some line defines it, and its value
    comes from the last line that does.
   */
  lemma {:induction false} EntriesLastWins(lines: seq<string>, key: string)
    ensures key in Entries(lines) <==> LastDefinition(lines, key) >= 0
    ensures key in Entries(lines) ==> Entries(lines)[key] == ValueOf(lines[LastDefinition(lines, key)])
    decreases |lines|
  {
    if lines != [] {
      var n := |lines| - 1;
      var prefix := lines[..n];
      EntriesLastWins(prefix, key);
      if !DefinesKey(lines[n], key) {
        var j := LastDefinition(prefix, key);
        assert j >= 0 ==> lines[j] == prefix[j];
      }
    }
  }

  /** The value a key gets from the lines: the one on the last line defining it, or "" when none does. */
  function Setting(lines: seq<string>, key: string): string {
    var j := LastDefinition(lines, key);
    if j >= 0 then ValueOf(lines[j]) else ""
  }

  /**
    What load_telegram_config returns: nothing for a missing file; otherwise
    the token and chat id each from the last line defining it (or ""),
    unless either still holds the template marker.
   */
  function CredentialsOf(file: Option<string>): (creds: Option<Credentials>)
    ensures file.None? ==> creds.None?
    ensures file.Some? ==>
      var token, chatId := Setting(Lines(file.value), TokenKey), Setting(Lines(file.value), ChatKey);
      creds == if Contains(token, Placeholder) || Contains(chatId, Placeholder) then None
               else Some(Credentials(token, chatId))
  {
    match file
    case None => None
    case Some(text) =>
      var config := Entries(Lines(text));
      EntriesLastWins(Lines(text), TokenKey);
      EntriesLastWins(Lines(text), ChatKey);
      var token := if TokenKey in config then config[TokenKey] else "";
      var chatId := if ChatKey in config then config[ChatKey] else "";
      if Contains(token, Placeholder) || Contains(chatId, Placeholder) then None
      else Some(Credentials(token, chatId))
  }

  /** Reading one more line extends the dictionary by that line's entry, if it is one. */
  lemma EntriesStep(lines: seq<string>, i: nat)
    requires i < |lines|
    ensures Entries(lines[..i + 1]) ==
      if IsEntry(lines[i]) then Entries(lines[..i])[KeyOf(lines[i]) := ValueOf(lines[i])] else Entries(lines[..i])
  {
    assert lines[..i + 1][..i] == lines[..i];
  }

  /** load_telegram_config (bot.py:15-32), with the file's text given. */
  method LoadTelegramConfig(file: Option<string>) returns (creds: Option<Credentials>)
    ensures creds == CredentialsOf(file)
    ensures creds.Some? ==> !Contains(creds.value.token, Placeholder) && !Contains(creds.value.chatId, Placeholder)
    ensures file.None? ==> creds.None?
  {
    if file.None? {
      return None;
    }
    var lines := Split(Strip(file.value), '\n');
    var config: map<string, string> := map[];
    for i := 0 to |lines|
      invariant config == Entries(lines[..i])
    {
      var line := lines[i];
      EntriesStep(lines, i);
      if '=' in line {
        var eq := IndexOf(line, '=');
        var key, value := Strip(line[..eq]), Strip(line[eq + 1..]);
        assert key == KeyOf(line) && value == ValueOf(line);
        config := config[key := value];
      }
    }
    assert lines[..|lines|] == lines;
    assert lines == Lines(file.value);
    var token := if TokenKey in config then config[TokenKey] else "";
    var chatId := if ChatKey in config then config[ChatKey] else "";
    if Contains(token, Placeholder) || Contains(chatId, Placeholder) {
      return None;
    }
    return Some(Credentials(token, chatId));
  }
}
