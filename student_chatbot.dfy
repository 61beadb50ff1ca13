/**
 * The dashboard's assistant: a message log that starts with a greeting, a send action
 * that appends the student's text and schedules a reply, and a keyword responder whose
 * rules are tried in a fixed order, the first match winning.
 */
module StudentChatbot {
  import opened Text

  datatype Sender = User | Bot

  /** A log entry; the wall-clock timestamp is not modelled. */
  datatype Message = Message(id: string, text: string, sender: Sender)

  /** What a reply is about: one per rule, and the fallback. */
  datatype Topic = Registration | Training | Placement | DigiLocker | Progress | Help | Fallback

  const Greeting := Message("1", "Hello! I'm your Magic Bus assistant. How can I help you today?", Bot)

  const SuggestedQuestions := [
    "How do I complete registration?",
    "What are the training modules?",
    "How can I apply for placements?",
    "How do I link my DigiLocker?"
  ]

  /** The reply rules in the order they are tried: the keywords of each, and its topic. */
  const Rules: seq<(seq<string>, Topic)> := [
    (["registration"], Registration),
    (["training", "module"], Training),
    (["placement"], Placement),
    (["digilocker"], DigiLocker),
    (["progress", "status"], Progress),
    (["help", "support"], Help)
  ]

  /** The topic of `getBotResponse(userText)`: the lower-cased text is searched for the
      keywords, rule by rule. */
  function TopicOf(userText: string): Topic
  {
    var text := ToLower(userText);
    if Contains(text, "registration") then Registration
    else if Contains(text, "training") || Contains(text, "module") then Training
    else if Contains(text, "placement") then Placement
    else if Contains(text, "digilocker") then DigiLocker
    else if Contains(text, "progress") || Contains(text, "status") then Progress
    else if Contains(text, "help") || Contains(text, "support") then Help
    else Fallback
  }

  function ReplyText(t: Topic): string
  {
    match t
    case Registration => "To complete registration, go to the Registration section and fill in your Personal Details, Academic Details, and Extra-Curricular Activities. Then review and confirm your information."
    case Training => "Our training modules cover essential skills like communication, technical skills, and advanced topics. You can access them in the Training Modules section after completing registration."
    case Placement => "Check the Placement Support section to view latest job opportunities. You can apply directly through the platform and get career guidance from our mentors."
    case DigiLocker => "DigiLocker integration allows you to securely fetch and store your academic certificates. You can link it from your profile settings to auto-fill academic details."
    case Progress => "Your application status is tracked in the Application Status section. You can see which stages you've completed and what's next."
    case Help => "I'm here to help! You can ask me about registration, training, placements, or any other aspect of the Magic Bus program. Feel free to reach out anytime!"
    case Fallback => "Thank you for your question! You can explore different sections of your dashboard to find more information. Would you like help with registration, training, placements, or something else?"
  }

  /** `getBotResponse`. */
  function GetBotResponse(userText: string): string
  {
    ReplyText(TopicOf(userText))
  }

  // ---------------------------------------------------------------------------
  // The responder against its rule table
  // ---------------------------------------------------------------------------

  /** Some keyword of the list occurs in `text`. */
  predicate AnyKeyword(text: string, keywords: seq<string>)
  {
    exists k | 0 <= k < |keywords| :: Contains(text, keywords[k])
  }

  /** The index of the first rule from index `i` on with a keyword in `text`, or `|rules|`
      when none has. */
  function FirstMatch(rules: seq<(seq<string>, Topic)>, text: string, i: nat): (n: nat)
    requires i <= |rules|
    ensures i <= n <= |rules|
    ensures forall k :: i <= k < n ==> !AnyKeyword(text, rules[k].0)
    ensures n < |rules| ==> AnyKeyword(text, rules[n].0)
    decreases |rules| - i
  {
    if i == |rules| then i
    else if AnyKeyword(text, rules[i].0) then i
    else FirstMatch(rules, text, i + 1)
  }

  /** The responder picks the topic of the first rule, in table order, that has a keyword
      in the lower-cased text, and falls back when there is none. */
  lemma TopicIsFirstMatch(userText: string)
    ensures var n := FirstMatch(Rules, ToLower(userText), 0);
      TopicOf(userText) == if n < |Rules| then Rules[n].1 else Fallback
  {
    var text := ToLower(userText);
    OneKeyword(text, "registration");
    TwoKeywords(text, "training", "module");
    OneKeyword(text, "placement");
    OneKeyword(text, "digilocker");
    TwoKeywords(text, "progress", "status");
    TwoKeywords(text, "help", "support");
    assert FirstMatch(Rules, text, 6) == 6;
    assert FirstMatch(Rules, text, 5) == if AnyKeyword(text, Rules[5].0) then 5 else 6;
    assert FirstMatch(Rules, text, 4) == if AnyKeyword(text, Rules[4].0) then 4 else FirstMatch(Rules, text, 5);
    assert FirstMatch(Rules, text, 3) == if AnyKeyword(text, Rules[3].0) then 3 else FirstMatch(Rules, text, 4);
    assert FirstMatch(Rules, text, 2) == if AnyKeyword(text, Rules[2].0) then 2 else FirstMatch(Rules, text, 3);
    assert FirstMatch(Rules, text, 1) == if AnyKeyword(text, Rules[1].0) then 1 else FirstMatch(Rules, text, 2);
  }

  lemma OneKeyword(text: string, a: string)
    ensures AnyKeyword(text, [a]) <==> Contains(text, a)
  {
    assert [a][0] == a;
  }

  lemma TwoKeywords(text: string, a: string, b: string)
    ensures AnyKeyword(text, [a, b]) <==> Contains(text, a) || Contains(text, b)
  {
    assert [a, b][0] == a && [a, b][1] == b;
  }

  /** Matching ignores case: a text and its lower-cased form get the same reply. */
  lemma CaseInsensitive(userText: string)
    ensures TopicOf(ToLower(userText)) == TopicOf(userText)
  {
    assert ToLower(ToLower(userText)) == ToLower(userText);
  }

  // ---------------------------------------------------------------------------
  // The log
  // ---------------------------------------------------------------------------

  /** The number of log entries from `s`. */
  function CountFrom(messages: seq<Message>, s: Sender): (n: nat)
    ensures n <= |messages|
  {
    if messages == [] then 0
    else CountFrom(messages[..|messages| - 1], s) + (if messages[|messages| - 1].sender == s then 1 else 0)
  }

  /** Appending an entry keeps the head of a non-empty log and counts once for its sender. */
  lemma LogAppend(messages: seq<Message>, m: Message)
    requires messages != []
    ensures (messages + [m])[0] == messages[0]
    ensures forall s :: CountFrom(messages + [m], s) == CountFrom(messages, s) + (if m.sender == s then 1 else 0)
  {
    assert (messages + [m])[..|messages|] == messages;
  }

  class StudentChatbot {
    var messages: seq<Message>
    var inputValue: string
    /** The texts whose reply timers have not fired yet, oldest first. */
    var pending: seq<string>

    /** The greeting heads the log, and every sent text has its reply in the log or due. */
    ghost predicate Valid()
      reads this
    {
      && |messages| >= 1 && messages[0] == Greeting
      && CountFrom(messages, Bot) + |pending| == CountFrom(messages, User) + 1
    }

    constructor ()
      ensures Valid()
      ensures messages == [Greeting] && inputValue == "" && pending == []
    {
      messages := [Greeting];
      inputValue := "";
      pending := [];
    }

    /** The suggested questions are offered only while the greeting is the whole log. */
    predicate ShowsSuggestions()
      reads this
    {
      |messages| == 1
    }

    /** The first two suggestions are the ones offered. */
    function OfferedSuggestions(): (r: seq<string>)
      reads this
      ensures ShowsSuggestions() ==> r == SuggestedQuestions[..2]
      ensures !ShowsSuggestions() ==> r == []
    {
      if ShowsSuggestions() then SuggestedQuestions[..2] else []
    }

    method HandleInputChange(value: string)
      modifies this`inputValue
      ensures inputValue == value
    {
      inputValue := value;
    }

    /** `handleSendMessage(text)` at time `now`: blank text is ignored; otherwise the text as
        typed is logged, the input is cleared and a reply is scheduled. */
    method HandleSendMessage(text: string, now: nat)
      requires Valid()
      modifies this`messages, this`inputValue, this`pending
      ensures Valid()
      ensures IsBlank(text) ==> messages == old(messages) && inputValue == old(inputValue) && pending == old(pending)
      ensures !IsBlank(text) ==>
        && messages == old(messages) + [Message(NatToString(now), text, User)]
        && inputValue == "" && pending == old(pending) + [text]
        && !ShowsSuggestions()
    {
      var blank := IsBlankAfterTrim(text);
      if blank {
        return;
      }
      var userMessage := Message(NatToString(now), text, User);
      LogAppend(messages, userMessage);
      messages := messages + [userMessage];
      inputValue := "";
      pending := pending + [text];
    }

    /** `!text.trim()`. */
    static method IsBlankAfterTrim(text: string) returns (blank: bool)
      ensures blank <==> IsBlank(text)
    {
      TrimEmptyIffBlank(text);
      blank := Trim(text) == [];
    }

    /** The earliest reply timer fires at time `now` and logs the reply to its text. */
    method DeliverBotResponse(now: nat)
      requires Valid() && pending != []
      modifies this`messages, this`pending
      ensures Valid()
      ensures messages == old(messages) + [Message(NatToString(now + 1), GetBotResponse(old(pending)[0]), Bot)]
      ensures pending == old(pending)[1..] && inputValue == old(inputValue)
    {
      var botMessage := Message(NatToString(now + 1), GetBotResponse(pending[0]), Bot);
      LogAppend(messages, botMessage);
      messages := messages + [botMessage];
      pending := pending[1..];
    }
  }

  /** Once every scheduled reply has arrived, the log holds one reply per sent text after
      the greeting. */
  lemma RepliesBalance(c: StudentChatbot)
    requires c.Valid() && c.pending == []
    ensures CountFrom(c.messages, Bot) == CountFrom(c.messages, User) + 1
  {
  }
}
