/** The contact-book assistant bot: splitting a command line, validating a
    phone number, the command handlers over the name-to-phone book, the
    replies the error handler substitutes for failures, and the command
    loop. */
module BotCli {
  import opened Wrappers
  import opened Text

  // ---------------------------------------------------------------------
  // input_error: failures and the replies they become
  // ---------------------------------------------------------------------

  /** The three kinds of failure the handler decorator catches. */
  datatype InputError = KeyError | IndexError | ValueError(message: string)

  const NotFound := "Contact not found."
  const MissingArguments := "Enter the required arguments for this command."
  const InvalidInput := "Invalid input."

  /** The reply `input_error` returns in place of a failure. */
  function ErrorReply(e: InputError): (r: string)
    ensures r != []
    ensures e == KeyError ==> r == NotFound
    ensures e == IndexError ==> r == MissingArguments
    ensures e.ValueError? && e.message != [] ==> r == e.message
    ensures e.ValueError? && e.message == [] ==> r == InvalidInput
  {
    match e
    case KeyError => NotFound
    case IndexError => MissingArguments
    case ValueError(m) => if m == [] then InvalidInput else m
  }

  /** What a decorated handler hands back to the loop. */
  function Reply(r: Result<string, InputError>): string {
    match r
    case Success(s) => s
    case Failure(e) => ErrorReply(e)
  }

  // ---------------------------------------------------------------------
  // parse_input
  // ---------------------------------------------------------------------

  /** `parse_input`: the first word, stripped and lower-cased, and the
      remaining words in order; None when the line holds no word, where
      the unpacking `cmd, *args = ...` fails. */
  function ParseInput(line: string): (r: Option<(string, seq<string>)>)
    ensures r.None? <==> AllSpace(line)
    ensures r.Some? ==>
      && Words(line) != []
      && r.value.0 == Lower(Words(line)[0])
      && r.value.1 == Words(line)[1..]
    ensures r.Some? ==> r.value.0 != [] && NoSpace(r.value.0)
    ensures r.Some? ==> forall i :: 0 <= i < |r.value.1| ==> r.value.1[i] != [] && NoSpace(r.value.1[i])
  {
    WordsEmptyIffAllSpace(line);
    var ws := Words(line);
    if ws == [] then None
    else
      WordsAreTokens(line);
      StripKeeps(ws[0]);
      LowerKeepsSpace(ws[0]);
      Some((Lower(Strip(ws[0])), ws[1..]))
  }

  /** Words typed with single spaces between them come back as the command
      and its arguments. */
  lemma ParseInputOfJoin(ws: seq<string>)
    requires ws != []
    requires forall i :: 0 <= i < |ws| ==> ws[i] != [] && NoSpace(ws[i])
    ensures ParseInput(Join(ws, " ")) == Some((Lower(ws[0]), ws[1..]))
  {
    WordsOfJoin(ws);
    WordsEmptyIffAllSpace(Join(ws, " "));
  }

  // ---------------------------------------------------------------------
  // validate_phone
  // ---------------------------------------------------------------------

  const OnlyDigits := "Wrong phone format. It must contain only digits."
  const TenDigits := "Wrong phone format. It must contain 10 digits."

  /** `s.isdigit()` over ASCII digits: at least one character, all digits. */
  predicate IsDigits(s: string) {
    s != [] && forall i :: 0 <= i < |s| ==> IsDigit(s[i])
  }

  /** A phone number the book accepts: exactly ten decimal digits. */
  predicate ValidPhone(p: string) {
    |p| == 10 && forall i :: 0 <= i < |p| ==> '0' <= p[i] <= '9'
  }

  /** `validate_phone`: passes exactly the ten-digit numbers; the digit test
      comes first, so an empty or non-digit string is reported as such
      whatever its length. */
  function ValidatePhone(phone: string): (r: Outcome<InputError>)
    ensures r.Pass? <==> ValidPhone(phone)
    ensures r == Fail(ValueError(OnlyDigits)) <==>
      (phone == [] || exists i :: 0 <= i < |phone| && !('0' <= phone[i] <= '9'))
    ensures r == Fail(ValueError(TenDigits)) <==>
      (phone != [] && |phone| != 10 && forall i :: 0 <= i < |phone| ==> '0' <= phone[i] <= '9')
  {
    if !IsDigits(phone) then Fail(ValueError(OnlyDigits))
    else if |phone| != 10 then Fail(ValueError(TenDigits))
    else Pass
  }

  // ---------------------------------------------------------------------
  // The contact book
  // ---------------------------------------------------------------------

  /** A name as the parser delivers one: a single non-empty word. */
  predicate ValidName(n: string) {
    n != [] && NoSpace(n)
  }

  /** Every entry is one the handlers can have stored. */
  predicate ValidBook(c: map<string, string>) {
    forall n :: n in c ==> ValidName(n) && ValidPhone(c[n])
  }

  /** A handler's reply, or the failure it raised, with the book after it. */
  datatype Handled = Handled(result: Result<string, InputError>, contacts: map<string, string>)

  const AddUsage := "Give me name and phone please."
  const Added := "Contact added."
  const ChangeUsage := "Give me name and new phone please."
  const Updated := "Contact updated."
  const NameUsage := "Enter user name."
  const NoContacts := "No contacts found."

  /** `add_contact`: with a name and a valid phone the name is (re)bound to
      the phone and nothing else changes; on any failure the book is left
      as it was. Failures are always ValueErrors with a message. */
  function AddOutcome(args: seq<string>, c: map<string, string>): (h: Handled)
    ensures |args| != 2 ==> h == Handled(Failure(ValueError(AddUsage)), c)
    ensures |args| == 2 ==> (h.result.Success? <==> ValidPhone(args[1]))
    ensures |args| == 2 && !ValidPhone(args[1]) ==> h.result == Failure(ValidatePhone(args[1]).error)
    ensures |args| == 2 && h.result.Success? ==>
      h.result.value == Added && h.contacts == c[args[0] := args[1]]
    ensures h.result.Failure? ==>
      && h.contacts == c
      && h.result.error.ValueError? && h.result.error.message != []
  {
    if |args| != 2 then Handled(Failure(ValueError(AddUsage)), c)
    else
      match ValidatePhone(args[1])
      case Fail(e) => Handled(Failure(e), c)
      case Pass => Handled(Success(Added), c[args[0] := args[1]])
  }

  /** `change_contact`: an unknown name is reported before the phone is
      looked at; a known name with a valid phone gets the new phone, and no
      other entry and no key changes; on any failure the book is left as it
      was. */
  function ChangeOutcome(args: seq<string>, c: map<string, string>): (h: Handled)
    ensures |args| != 2 ==> h == Handled(Failure(ValueError(ChangeUsage)), c)
    ensures |args| == 2 && args[0] !in c ==> h == Handled(Failure(KeyError), c)
    ensures |args| == 2 && args[0] in c ==> (h.result.Success? <==> ValidPhone(args[1]))
    ensures |args| == 2 && args[0] in c && !ValidPhone(args[1]) ==>
      h.result == Failure(ValidatePhone(args[1]).error)
    ensures |args| == 2 && h.result.Success? ==>
      && h.result.value == Updated && h.contacts == c[args[0] := args[1]]
      && h.contacts.Keys == c.Keys && |h.contacts| == |c|
    ensures h.result.Failure? ==> h.contacts == c && !h.result.error.IndexError?
  {
    if |args| != 2 then Handled(Failure(ValueError(ChangeUsage)), c)
    else if args[0] !in c then Handled(Failure(KeyError), c)
    else
      match ValidatePhone(args[1])
      case Fail(e) => Handled(Failure(e), c)
      case Pass => Handled(Success(Updated), c[args[0] := args[1]])
  }

  /** How `show_phone` and `show_all` write one contact. */
  function ContactLine(name: string, phone: string): string {
    name + ": " + phone
  }

  /** `show_phone`: the contact's line for a known name; it takes the book
      by value and hands none back, so it cannot change it. */
  function ShowPhone(args: seq<string>, c: map<string, string>): (r: Result<string, InputError>)
    ensures |args| != 1 ==> r == Failure(ValueError(NameUsage))
    ensures |args| == 1 ==> (r.Success? <==> args[0] in c)
    ensures |args| == 1 && args[0] !in c ==> r == Failure(KeyError)
    ensures |args| == 1 && args[0] in c ==> r == Success(ContactLine(args[0], c[args[0]]))
  {
    if |args| != 1 then Failure(ValueError(NameUsage))
    else if args[0] !in c then Failure(KeyError)
    else Success(ContactLine(args[0], c[args[0]]))
  }

  /** A phone just added is the one `phone` shows for that name. */
  lemma AddThenShowPhone(name: string, phone: string, c: map<string, string>)
    requires ValidPhone(phone)
    ensures var h := AddOutcome([name, phone], c);
      && h.result == Success(Added)
      && ShowPhone([name], h.contacts) == Success(ContactLine(name, phone))
  {
  }

  /** A phone just changed is the one `phone` shows for that name, and every
      other name shows what it showed before. */
  lemma ChangeThenShowPhone(name: string, phone: string, other: string, c: map<string, string>)
    requires name in c && ValidPhone(phone) && other != name
    ensures var h := ChangeOutcome([name, phone], c);
      && ShowPhone([name], h.contacts) == Success(ContactLine(name, phone))
      && ShowPhone([other], h.contacts) == ShowPhone([other], c)
  {
  }

  /** The contacts' lines, ordered by name. */
  function ContactLines(c: map<string, string>): (ls: seq<string>)
    ensures var names := SortedStrings(c.Keys);
      && |ls| == |names| == |c|
      && forall i :: 0 <= i < |ls| ==> names[i] in c && ls[i] == ContactLine(names[i], c[names[i]])
  {
    var names := SortedStrings(c.Keys);
    seq(|names|, i requires 0 <= i < |names| => ContactLine(names[i], c[names[i]]))
  }

  /** `show_all`: the notice for an empty book, otherwise the contacts'
      lines ordered by name and joined by newlines. */
  function ShowAll(c: map<string, string>): (r: string)
    ensures c == map[] ==> r == NoContacts
  {
    if c == map[] then NoContacts else Join(ContactLines(c), "\n")
  }

  /** Read back line by line, a non-empty listing has one line per contact,
      ordered strictly by name, each holding that name's phone. */
  lemma ShowAllLines(c: map<string, string>)
    requires c != map[]
    requires forall n :: n in c ==> '\n' !in n && '\n' !in c[n]
    ensures var names := SortedStrings(c.Keys);
      var ls := SplitOn(ShowAll(c), '\n');
      && |ls| == |c|
      && StrictlySorted(names)
      && forall i :: 0 <= i < |ls| ==> names[i] in c && ls[i] == ContactLine(names[i], c[names[i]])
  {
    var names := SortedStrings(c.Keys);
    var ls := ContactLines(c);
    assert |c.Keys| > 0 by {
      var n :| n in c;
    }
    forall i | 0 <= i < |ls| ensures '\n' !in ls[i] {
      assert names[i] in names;
      ContactLineHasNoNewline(names[i], c[names[i]]);
    }
    SplitOnJoin(ls, '\n');
  }

  lemma ContactLineHasNoNewline(name: string, phone: string)
    requires '\n' !in name && '\n' !in phone
    ensures '\n' !in ContactLine(name, phone)
  {
    var line := ContactLine(name, phone);
    forall k | 0 <= k < |line| ensures line[k] != '\n' {
      if k < |name| {
        assert line[k] == name[k];
      } else if k >= |name| + 2 {
        assert line[k] == phone[k - |name| - 2];
      }
    }
  }

  /** A valid book meets the newline condition of `ShowAllLines`. */
  lemma ValidBookHasNoNewlines(c: map<string, string>)
    requires ValidBook(c)
    ensures forall n :: n in c ==> '\n' !in n && '\n' !in c[n]
  {
    forall n | n in c ensures '\n' !in n && '\n' !in c[n] {
      assert IsSpace('\n');
    }
  }

  /** Storing a parsed name with a validated phone keeps the book valid. */
  lemma AddKeepsValid(args: seq<string>, c: map<string, string>)
    requires ValidBook(c)
    requires forall i :: 0 <= i < |args| ==> ValidName(args[i])
    ensures ValidBook(AddOutcome(args, c).contacts)
  {
  }

  lemma ChangeKeepsValid(args: seq<string>, c: map<string, string>)
    requires ValidBook(c)
    ensures ValidBook(ChangeOutcome(args, c).contacts)
  {
  }

  // ---------------------------------------------------------------------
  // show_help and the dispatch in main
  // ---------------------------------------------------------------------

  const Welcome := "Welcome to the assistant bot!"
  const Greeting := "How can I help you?"
  const GoodBye := "Good bye!"
  const InvalidCommand := "Invalid command. Please use one of the following commands:"

  /** The text of `show_help`. */
  const Help :=
    "\nAvailable commands:\n"
    + "- hello: Greet the bot\n"
    + "- add [name] [phone]: Add a new contact\n"
    + "- change [name] [new_phone]: Change an existing contact's phone number\n"
    + "- phone [name]: Show the phone number of a contact\n"
    + "- all: Show all contacts\n"
    + "- help: Show this help message\n"
    + "- close, exit: Exit the bot\n"

  /** The entries of the `commands` table, the two exit words, and
      everything else. */
  datatype Command = Hello | Add | Change | Phone | All | ShowHelp | Exit | Unknown

  function Classify(cmd: string): (k: Command)
    ensures k == Exit <==> cmd in ["close", "exit"]
    ensures k == Hello <==> cmd == "hello"
    ensures k == Add <==> cmd == "add"
    ensures k == Change <==> cmd == "change"
    ensures k == Phone <==> cmd == "phone"
    ensures k == All <==> cmd == "all"
    ensures k == ShowHelp <==> cmd == "help"
    ensures k == Unknown <==> cmd !in ["hello", "add", "change", "phone", "all", "help", "close", "exit"]
  {
    if cmd == "close" || cmd == "exit" then Exit
    else if cmd == "hello" then Hello
    else if cmd == "add" then Add
    else if cmd == "change" then Change
    else if cmd == "phone" then Phone
    else if cmd == "all" then All
    else if cmd == "help" then ShowHelp
    else Unknown
  }

  /** What one handled command prints, and the book after it. */
  datatype Response = Response(printed: seq<string>, contacts: map<string, string>)

  /** `if command in commands: ... else: ...`: the table entry's reply, or
      the invalid-command notice followed by the help. Only `add` and
      `change` can touch the book. */
  function Respond(cmd: string, args: seq<string>, c: map<string, string>): (r: Response)
    ensures |r.printed| >= 1
    ensures Classify(cmd) !in {Add, Change} ==> r.contacts == c
    ensures Classify(cmd) == Hello ==> r.printed == [Greeting]
    ensures Classify(cmd) in {Unknown, Exit} ==> r.printed == [InvalidCommand, Help]
    ensures Classify(cmd) == Add ==> r.contacts == AddOutcome(args, c).contacts
    ensures Classify(cmd) == Change ==> r.contacts == ChangeOutcome(args, c).contacts
    ensures Classify(cmd) == Add ==> r.printed == [Reply(AddOutcome(args, c).result)]
    ensures Classify(cmd) == Change ==> r.printed == [Reply(ChangeOutcome(args, c).result)]
    ensures Classify(cmd) == Phone ==> r.printed == [Reply(ShowPhone(args, c))]
    ensures Classify(cmd) == All ==> r.printed == [ShowAll(c)]
    ensures Classify(cmd) == ShowHelp ==> r.printed == [Help]
  {
    match Classify(cmd)
    case Hello => Response([Greeting], c)
    case Add =>
      var h := AddOutcome(args, c);
      Response([Reply(h.result)], h.contacts)
    case Change =>
      var h := ChangeOutcome(args, c);
      Response([Reply(h.result)], h.contacts)
    case Phone => Response([Reply(ShowPhone(args, c))], c)
    case All => Response([ShowAll(c)], c)
    case ShowHelp => Response([Help], c)
    case Exit => Response([InvalidCommand, Help], c)
    case Unknown => Response([InvalidCommand, Help], c)
  }

  /** One pass of the loop in `main`: a line without words ends the program
      with the unpacking failure, an exit word says good-bye and leaves the
      loop, anything else is answered. */
  datatype StepResult = Crash | Quit | Continue(response: Response)

  function Step(line: string, c: map<string, string>): (s: StepResult)
    ensures s.Crash? <==> AllSpace(line)
    ensures s.Quit? <==> Words(line) != [] && Lower(Words(line)[0]) in ["close", "exit"]
    ensures s.Continue? ==>
      && ParseInput(line).Some?
      && s.response == Respond(ParseInput(line).value.0, ParseInput(line).value.1, c)
  {
    match ParseInput(line)
    case None => Crash
    case Some(p) =>
      if Classify(p.0) == Exit then Quit else Continue(Respond(p.0, p.1, c))
  }

  /** A step keeps a valid book valid. */
  lemma StepKeepsValid(line: string, c: map<string, string>)
    requires ValidBook(c)
    requires Step(line, c).Continue?
    ensures ValidBook(Step(line, c).response.contacts)
  {
    var p := ParseInput(line).value;
    match Classify(p.0)
    case Add => AddKeepsValid(p.1, c);
    case Change => ChangeKeepsValid(p.1, c);
    case _ =>
  }

  /** How a run of the loop ended: an exit word, the failure on a line
      without words, or no more input. */
  datatype Ending = Exited | Crashed | InputEnded

  /** What the loop prints for a sequence of input lines, the book it
      leaves and how it ends. */
  datatype Session = Session(printed: seq<string>, contacts: map<string, string>, ending: Ending)

  function Converse(inputs: seq<string>, c: map<string, string>): Session
    decreases |inputs|
  {
    if inputs == [] then Session([], c, InputEnded)
    else
      match Step(inputs[0], c)
      case Crash => Session([], c, Crashed)
      case Quit => Session([GoodBye], c, Exited)
      case Continue(r) =>
        var rest := Converse(inputs[1..], r.contacts);
        Session(r.printed + rest.printed, rest.contacts, rest.ending)
  }

  /** Unfolding the loop at input line i. */
  lemma ConverseAt(inputs: seq<string>, i: nat, c: map<string, string>)
    requires i < |inputs|
    ensures var p := ParseInput(inputs[i]);
      && (p.None? ==> Converse(inputs[i..], c) == Session([], c, Crashed))
      && (p.Some? && p.value.0 in ["close", "exit"] ==> Converse(inputs[i..], c) == Session([GoodBye], c, Exited))
      && (p.Some? && p.value.0 !in ["close", "exit"] ==>
            var r := Respond(p.value.0, p.value.1, c);
            var rest := Converse(inputs[i + 1..], r.contacts);
            Converse(inputs[i..], c) == Session(r.printed + rest.printed, rest.contacts, rest.ending))
  {
    assert inputs[i..][0] == inputs[i] && inputs[i..][1..] == inputs[i + 1..];
  }

  lemma AppendAssoc(a: seq<string>, b: seq<string>, c: seq<string>)
    ensures a + (b + c) == (a + b) + c
  {
  }

  lemma TailOfAppend(a: seq<string>, b: seq<string>)
    requires a != []
    ensures (a + b)[0] == a[0] && (a + b)[1..] == a[1..] + b
  {
  }

  /** Once the loop has ended, later input lines are never read. */
  lemma {:induction false} ConverseStops(a: seq<string>, b: seq<string>, c: map<string, string>)
    requires Converse(a, c).ending != InputEnded
    ensures Converse(a + b, c) == Converse(a, c)
  {
    TailOfAppend(a, b);
    match Step(a[0], c)
    case Crash =>
    case Quit =>
    case Continue(r) => ConverseStops(a[1..], b, r.contacts);
  }

  /** The loop keeps a valid book valid, whatever it is given. */
  lemma {:induction false} ConverseKeepsValid(inputs: seq<string>, c: map<string, string>)
    requires ValidBook(c)
    ensures ValidBook(Converse(inputs, c).contacts)
    decreases |inputs|
  {
    if inputs != [] && Step(inputs[0], c).Continue? {
      StepKeepsValid(inputs[0], c);
      ConverseKeepsValid(inputs[1..], Step(inputs[0], c).response.contacts);
    }
  }

  // ---------------------------------------------------------------------
  // The book the handlers update in place
  // ---------------------------------------------------------------------

  /** The `contacts` dictionary of `main`, which `add_contact` and
      `change_contact` update in place. */
  class ContactBook {
    var contacts: map<string, string>

    /** `main` starts from an empty dictionary. */
    constructor ()
      ensures contacts == map[]
    {
      contacts := map[];
    }

    /** `add_contact` behind `input_error`. */
    method AddContact(args: seq<string>) returns (reply: string)
      modifies this
      ensures var h := AddOutcome(args, old(contacts));
        reply == Reply(h.result) && contacts == h.contacts
    {
      if |args| != 2 {
        reply := ErrorReply(ValueError(AddUsage));
        return;
      }
      var name, phone := args[0], args[1];
      var v := ValidatePhone(phone);
      if v.Fail? {
        reply := ErrorReply(v.error);
        return;
      }
      contacts := contacts[name := phone];
      reply := Added;
    }

    /** `change_contact` behind `input_error`. */
    method ChangeContact(args: seq<string>) returns (reply: string)
      modifies this
      ensures var h := ChangeOutcome(args, old(contacts));
        reply == Reply(h.result) && contacts == h.contacts
    {
      if |args| != 2 {
        reply := ErrorReply(ValueError(ChangeUsage));
        return;
      }
      var name, phone := args[0], args[1];
      if name !in contacts {
        reply := ErrorReply(KeyError);
        return;
      }
      var v := ValidatePhone(phone);
      if v.Fail? {
        reply := ErrorReply(v.error);
        return;
      }
      contacts := contacts[name := phone];
      reply := Updated;
    }

    /** The `commands` lookup and the call of the handler it finds. */
    method Dispatch(cmd: string, args: seq<string>) returns (printed: seq<string>)
      modifies this
      ensures var r := Respond(cmd, args, old(contacts));
        printed == r.printed && contacts == r.contacts
    {
      var k := Classify(cmd);
      if k == Hello {
        printed := [Greeting];
      } else if k == Add {
        var reply := AddContact(args);
        printed := [reply];
      } else if k == Change {
        var reply := ChangeContact(args);
        printed := [reply];
      } else if k == Phone {
        printed := [Reply(ShowPhone(args, contacts))];
      } else if k == All {
        printed := [ShowAll(contacts)];
      } else if k == ShowHelp {
        printed := [Help];
      } else {
        printed := [InvalidCommand, Help];
      }
    }

    /** `main`: the welcome and the help, then one loop pass per input line
      until an exit word, a line without words, or the end of input. */
    method Run(inputs: seq<string>) returns (out: seq<string>, ending: Ending)
      modifies this
      ensures var s := Converse(inputs, old(contacts));
        && out == [Welcome, Help] + s.printed
        && contacts == s.contacts
        && ending == s.ending
    {
      out := [Welcome, Help];
      ghost var said: seq<string> := [];
      var i := 0;
      while i < |inputs|
        invariant 0 <= i <= |inputs|
        invariant out == [Welcome, Help] + said
        invariant var s := Converse(inputs[i..], contacts);
          Converse(inputs, old(contacts)) == Session(said + s.printed, s.contacts, s.ending)
      {
        ConverseAt(inputs, i, contacts);
        var parsed := ParseInput(inputs[i]);
        if parsed.None? {
          assert said + [] == said;
          ending := Crashed;
          return;
        }
        var cmd, args := parsed.value.0, parsed.value.1;
        if cmd in ["close", "exit"] {
          out := out + [GoodBye];
          said := said + [GoodBye];
          ending := Exited;
          return;
        }
        var printed := Dispatch(cmd, args);
        AppendAssoc(said, printed, Converse(inputs[i + 1..], contacts).printed);
        AppendAssoc([Welcome, Help], said, printed);
        out := out + printed;
        said := said + printed;
        i := i + 1;
      }
      assert inputs[i..] == [];
      ending := InputEnded;
    }
  }
}
