/** Steps 3 and 4 of the route: the two chat messages and the request sent to the
    model. The call itself is outside this module. */
module Prompt {
  import opened Wrappers
  import opened Strings
  import opened SectionBuilder

  datatype Role = System | User

  datatype Message = Message(role: Role, content: string)

  /** The arguments of `openai.chat.completions.create`. */
  datatype ChatRequest = ChatRequest(model: string, messages: seq<Message>, temperature: real)

  const ModelName := "gpt-3.5-turbo"

  const Temperature: real := 0.7

  /** The fixed system instruction, character for character (the ranges use an
      en dash, U+2013). */
  const SystemInstruction :=
    "You are a senior brochure writer for an estate agency. Given detailed room/property input, return content in this JSON structure:\n"
    + "{\n"
    + "  \"headline\": \"[A short, 2\U{2013}6 word headline]\",\n"
    + "  \"summary\": \"[200\U{2013}300 word summary in a professional, emotive, descriptive tone]\",\n"
    + "  \"bulletPoints\": [\"Feature: Description\", \"Feature: Description\", ...]\n"
    + "}\n"
    + "\n"
    + "Use proper formatting, never return plain text. Always include bulletPoints."

  const UserPrefix := "Property Details:\n\n"

  const UserSuffix := "\n\nRespond ONLY in JSON with keys: headline, summary, bulletPoints."

  /** The user message's text around a given sections string. */
  function UserContent(sections: string): (r: string)
    ensures |r| == |UserPrefix| + |sections| + |UserSuffix|
    ensures StartsWith(r, UserPrefix)
    ensures r[|UserPrefix|..|r| - |UserSuffix|] == sections
    ensures r[|r| - |UserSuffix|..] == UserSuffix
  {
    UserPrefix + sections + UserSuffix
  }

  /** Recovers the sections string from a user message, if it has the fixed
      prefix and suffix. */
  function SectionsOfUserContent(content: string): (r: Option<string>)
    ensures r.Some? ==> |r.value| + |UserPrefix| + |UserSuffix| == |content|
  {
    var p := |UserPrefix|;
    var q := |UserSuffix|;
    if p + q <= |content| && content[..p] == UserPrefix && content[|content| - q..] == UserSuffix
    then Some(content[p..|content| - q])
    else None
  }

  /** The user message is decodable: prefix and suffix are fixed, so the
      sections string in it is exactly the one rendered from the body. */
  lemma UserContentRoundTrip(sections: string)
    ensures SectionsOfUserContent(UserContent(sections)) == Some(sections)
  {
    var c := UserContent(sections);
    assert c[..|UserPrefix|] == UserPrefix;
    assert c[|c| - |UserSuffix|..] == UserSuffix;
    assert c[|UserPrefix|..|c| - |UserSuffix|] == sections;
  }

  /** A user message decodes to a sections string exactly when it is the user
      message for that string: the decoder accepts nothing else. */
  lemma UserContentDecodes(content: string, sections: string)
    ensures SectionsOfUserContent(content) == Some(sections) <==> content == UserContent(sections)
  {
    UserContentRoundTrip(sections);
    var p := |UserPrefix|;
    var q := |UserSuffix|;
    if SectionsOfUserContent(content) == Some(sections) {
      assert content == content[..p] + content[p..|content| - q] + content[|content| - q..];
    }
  }

  /** The message list: the system instruction, then the user message. */
  function Messages(sections: string): (r: seq<Message>)
    ensures |r| == 2
    ensures r[0].role == System && r[1].role == User
    ensures r[0].content == SystemInstruction
    ensures SectionsOfUserContent(r[1].content) == Some(sections)
  {
    UserContentRoundTrip(sections);
    [Message(System, SystemInstruction), Message(User, UserContent(sections))]
  }

  /** The request built for a body: fixed model and temperature, and a user
      message carrying exactly that body's sections string. */
  function BuildRequest(es: seq<Entry>): (r: ChatRequest)
    ensures r.model == ModelName && r.temperature == Temperature
    ensures |r.messages| == 2 && r.messages[0] == Message(System, SystemInstruction)
    ensures r.messages[1].role == User
    ensures SectionsOfUserContent(r.messages[1].content) == Some(SectionsText(es))
  {
    ChatRequest(ModelName, Messages(SectionsText(es)), Temperature)
  }

  /** Two bodies give the same request exactly when they give the same sections
      string: nothing else about the body reaches the model. */
  lemma RequestDeterminedBySections(a: seq<Entry>, b: seq<Entry>)
    ensures BuildRequest(a) == BuildRequest(b) <==> SectionsText(a) == SectionsText(b)
  {
    if BuildRequest(a) == BuildRequest(b) {
      assert SectionsOfUserContent(BuildRequest(a).messages[1].content) == Some(SectionsText(a));
      assert SectionsOfUserContent(BuildRequest(b).messages[1].content) == Some(SectionsText(b));
    }
  }

  /** The user message of a request is the fixed prefix, the body's sections
      string and the fixed suffix, in that order. */
  lemma UserMessageText(es: seq<Entry>)
    ensures BuildRequest(es).messages[1].content == UserPrefix + SectionsText(es) + UserSuffix
  {
    UserContentDecodes(BuildRequest(es).messages[1].content, SectionsText(es));
  }

  /** A body with no qualifying entry is not rejected: it still yields a request,
      whose user message is the prefix and suffix with nothing between them. */
  lemma EmptyBodyStillRequested(es: seq<Entry>)
    requires forall i :: !Kept(es, i)
    ensures BuildRequest(es).messages[1] == Message(User, UserPrefix + UserSuffix)
  {
    assert UserContent("") == UserPrefix + UserSuffix;
  }
}
