/**
 * The `Note` record, its `Importance`, and its dictionary form: the computed
 * `json` property and `parse(json:)`.
 */
module Notes {
  import opened Wrappers
  import opened HexText
  import opened Colors

  /** `enum Importance: String`; each raw value is the case name. */
  datatype Importance = Important | Normal | Unimportant

  /** The raw value of a case: its name, which `Importance(rawValue:)` maps back
      to that case, so no two cases share one. */
  function RawValue(i: Importance): (raw: string)
    ensures raw == "Important" || raw == "Normal" || raw == "Unimportant"
    ensures ImportanceFromRaw(raw) == Some(i)
  {
    match i
    case Important => "Important"
    case Normal => "Normal"
    case Unimportant => "Unimportant"
  }

  /** `Importance(rawValue:)`: the case whose name is exactly `raw`, if any. */
  function ImportanceFromRaw(raw: string): (r: Option<Importance>)
    ensures r.Some? <==> raw == "Important" || raw == "Normal" || raw == "Unimportant"
    ensures r == Some(Important) <==> raw == "Important"
    ensures r == Some(Normal) <==> raw == "Normal"
    ensures r == Some(Unimportant) <==> raw == "Unimportant"
  {
    if raw == "Important" then Some(Important)
    else if raw == "Normal" then Some(Normal)
    else if raw == "Unimportant" then Some(Unimportant)
    else None
  }

  /** An immutable note. */
  datatype Note = Note(title: string, content: string, importance: Importance, uid: string, color: Color)

  /** `Note.init`: stores each argument in its field. `uid` stands for the
      `UUID().uuidString` the source draws when it is omitted; `color` defaults
      to white. */
  function NewNote(title: string, content: string, importance: Importance, uid: string,
                   color: Color := White): (n: Note)
    ensures n.title == title && n.content == content && n.importance == importance
    ensures n.uid == uid && n.color == color
  {
    Note(title, content, importance, uid, color)
  }

  /** A note made without a colour is white. */
  lemma DefaultColorIsWhite(title: string, content: string, importance: Importance, uid: string)
    ensures NewNote(title, content, importance, uid).color == White
  {
  }

  /** The values a `[String: Any]` dictionary holds: `json` only ever stores
      strings; the other cases stand for anything else `Any` can hold. */
  datatype Value = Text(text: string) | Number(number: int) | Boolean(flag: bool)

  type Json = map<string, Value>

  /** The five keys of a note's dictionary. */
  const NoteKeys: set<string> := {"title", "content", "importance", "uid", "color"}

  /** The five keys are different strings: each pair differs in its first or
      third letter. */
  lemma KeysDistinct()
    ensures "title" != "content" && "title" != "importance" && "title" != "uid" && "title" != "color"
    ensures "content" != "importance" && "content" != "uid" && "content" != "color"
    ensures "importance" != "uid" && "importance" != "color" && "uid" != "color"
  {
    assert "title"[0] == 't' && "content"[0] == 'c' && "importance"[0] == 'i';
    assert "uid"[0] == 'u' && "color"[0] == 'c' && "content"[2] != "color"[2];
  }

  /** The dictionary literal of `json`, given the five strings it stores. */
  function Dictionary(title: string, importance: string, uid: string, color: string): (j: Json)
    ensures j.Keys == NoteKeys
    ensures forall k :: k in j ==> j[k].Text?
    ensures j["title"].text == title && j["content"].text == title
    ensures j["importance"].text == importance && j["uid"].text == uid && j["color"].text == color
  {
    KeysDistinct();
    map["title" := Text(title),
        "content" := Text(title),
        "importance" := Text(importance),
        "uid" := Text(uid),
        "color" := Text(color)]
  }

  /** `json`: a five-entry dictionary. The `content` entry holds the title, and
      `importance` and `color` are always present. */
  function ToJson(n: Note): (j: Json)
    ensures j.Keys == NoteKeys
    ensures forall k :: k in j ==> j[k].Text?
    ensures j["title"].text == n.title && j["content"].text == n.title
    ensures ImportanceFromRaw(j["importance"].text) == Some(n.importance)
    ensures j["uid"].text == n.uid
    ensures j["color"].text == ColorToHex(n.color)
    ensures |j["color"].text| == 26 && j["color"].text[0] == '#'
  {
    Dictionary(n.title, RawValue(n.importance), n.uid, ColorToHex(n.color))
  }

  /** A note's content never reaches its dictionary: notes that differ only in
      content have the same `json`. */
  lemma JsonIgnoresContent(n: Note, content: string)
    ensures ToJson(n.(content := content)) == ToJson(n)
  {
  }

  /** Why `parse(json:)` traps: a forced `as! String` on a missing or non-string
      entry, or a forced unwrap of `Importance(rawValue:)`. */
  datatype Trap = NotText(key: string) | BadImportance(raw: string)

  /** `json[key] as! String` succeeds. */
  predicate HasText(j: Json, key: string) {
    key in j && j[key].Text?
  }

  /** `parse(json:)`: each field from its own key, the colour through
      `HexToUIColor`. The arguments are evaluated in order, so the first failing
      one decides the trap; it never returns nil. */
  function Parse(j: Json): (r: Result<Note, Trap>)
    ensures r.Success? <==>
      HasText(j, "title") && HasText(j, "content") && HasText(j, "importance") &&
      HasText(j, "uid") && HasText(j, "color") &&
      ImportanceFromRaw(j["importance"].text).Some?
    ensures r.Success? ==>
      r.value.title == j["title"].text && r.value.content == j["content"].text &&
      RawValue(r.value.importance) == j["importance"].text &&
      r.value.uid == j["uid"].text && r.value.color == HexToColor(j["color"].text)
    ensures r.Failure? && r.error.NotText? ==> r.error.key in NoteKeys && !HasText(j, r.error.key)
    ensures r.Failure? && r.error.BadImportance? ==>
      HasText(j, "importance") && r.error.raw == j["importance"].text &&
      ImportanceFromRaw(r.error.raw).None?
  {
    if !HasText(j, "title") then Failure(NotText("title"))
    else if !HasText(j, "content") then Failure(NotText("content"))
    else if !HasText(j, "importance") then Failure(NotText("importance"))
    else
      match ImportanceFromRaw(j["importance"].text)
      case None => Failure(BadImportance(j["importance"].text))
      case Some(importance) =>
        if !HasText(j, "uid") then Failure(NotText("uid"))
        else if !HasText(j, "color") then Failure(NotText("color"))
        else Success(Note(j["title"].text, j["content"].text, importance, j["uid"].text,
                          HexToColor(j["color"].text)))
  }

  /** Parsing what `json` wrote always succeeds, but it gives back a note whose
      content is the title and whose colour is black. */
  lemma ParseToJson(n: Note)
    ensures Parse(ToJson(n)) == Success(Note(n.title, n.title, n.importance, n.uid, Black))
  {
    HexRoundTripGivesBlack(n.color);
  }

  /** So the round trip restores a note exactly when its content already equals
      its title and it is black. */
  lemma JsonRoundTripExactly(n: Note)
    ensures Parse(ToJson(n)) == Success(n) <==> n.content == n.title && n.color == Black
  {
    ParseToJson(n);
  }

  /** A key missing from the dictionary, or holding something other than a
      string, makes `parse` trap. */
  lemma ParseMissingKey(j: Json, key: string)
    requires key in NoteKeys && !HasText(j, key)
    ensures Parse(j).Failure?
  {
  }
}
