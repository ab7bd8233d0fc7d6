/** The MQTT discovery side of the pool controller: the topics a sensor is
    announced and reported on, and the discovery message (the dictionary
    handed to `json.dumps`) that registers a sensor with Home Assistant. */
module HomeAssistant {

  datatype Option<T> = None | Some(value: T)

  /** The JSON values a discovery message holds. */
  datatype Json =
    | Str(text: string)
    | List(items: seq<Json>)
    | Object(entries: Dict)

  /** A Python dict: its keys in insertion order, which `json.dumps` keeps,
      and the value of each key. */
  datatype Dict = Dict(keys: seq<string>, values: map<string, Json>)

  const UniqueIdPrefix: string := "b827eb771bbc_pool_controller_"

  /** The device every sensor of the controller belongs to. */
  const DiscoveryContentDevice: Json := Object(Dict(
    ["name", "ids", "suggested_area"],
    map[
      "name" := Str("Raspberry Pi Zero-Pool"),
      "ids" := List([Str("b8:27:eb:77:1b:bc")]),
      "suggested_area" := Str("Pool")
    ]))

  predicate Distinct(keys: seq<string>)
  {
    forall i, j | 0 <= i < j < |keys| :: keys[i] != keys[j]
  }

  /** Every key is listed once, and the listed keys are the ones with a value. */
  ghost predicate ValidDict(d: Dict)
  {
    Distinct(d.keys) && (forall k :: k in d.values <==> k in d.keys)
  }

  /** `d[k]` when `k` is a key, `None` otherwise. */
  function Get(d: Dict, k: string): Option<Json>
  {
    if k in d.values then Some(d.values[k]) else None
  }

  /** Python's `d[k] = v`: an existing key keeps its place and takes the
      new value, a new key goes at the end. */
  function Assign(d: Dict, k: string, v: Json): Dict
  {
    Dict(if k in d.values then d.keys else d.keys + [k], d.values[k := v])
  }

  /** Assignment keeps a dict well formed, binds `k` to `v`, leaves every
      other key's value alone, and appends `k` to the key order exactly when
      it was not a key before. */
  lemma AssignProperties(d: Dict, k: string, v: Json)
    requires ValidDict(d)
    ensures ValidDict(Assign(d, k, v))
    ensures Get(Assign(d, k, v), k) == Some(v)
    ensures forall other | other != k :: Get(Assign(d, k, v), other) == Get(d, other)
    ensures Assign(d, k, v).keys == if Get(d, k).Some? then d.keys else d.keys + [k]
  {
  }

  // ---------------------------------------------------------------------
  // f-strings
  // ---------------------------------------------------------------------

  /** The text a literal part of an f-string stands for: `{{` is one `{`
      and `}}` one `}`. */
  function Unescape(s: string): string
  {
    if |s| >= 2 && s[0] == '{' && s[1] == '{' then "{" + Unescape(s[2..])
    else if |s| >= 2 && s[0] == '}' && s[1] == '}' then "}" + Unescape(s[2..])
    else if s == [] then []
    else [s[0]] + Unescape(s[1..])
  }

  /** How a text is written as a literal part of an f-string. */
  function Escape(s: string): string
  {
    if s == [] then []
    else (if s[0] == '{' then "{{" else if s[0] == '}' then "}}" else [s[0]]) + Escape(s[1..])
  }

  /** Reading an escaped text gives it back. */
  lemma {:induction false} UnescapeEscape(s: string)
    ensures Unescape(Escape(s)) == s
  {
    if s != [] {
      var head := if s[0] == '{' then "{{" else if s[0] == '}' then "}}" else [s[0]];
      assert Escape(s) == head + Escape(s[1..]);
      UnescapeEscape(s[1..]);
      UnescapePrefix(head, Escape(s[1..]));
      assert Unescape(head) == [s[0]];
    }
  }

  lemma UnescapePrefix(head: string, rest: string)
    requires head == "{{" || head == "}}" || (|head| == 1 && head[0] != '{' && head[0] != '}')
    ensures Unescape(head + rest) == Unescape(head) + Unescape(rest)
  {
    var s := head + rest;
    if |head| == 2 {
      assert s[2..] == rest;
    } else {
      assert s[1..] == rest;
    }
  }

  // ---------------------------------------------------------------------
  // Topics and the discovery message (lines 22-43)
  // ---------------------------------------------------------------------

  const DiscoveryPrefix: string := "homeassistant/sensor/"
  const DiscoverySuffix: string := "/config"
  const StatusPrefix: string := "tele/"
  const StatusSuffix: string := "/status"

  /** Line 23. */
  function DiscoveryTopic(sensorName: string): string
  {
    DiscoveryPrefix + sensorName + DiscoverySuffix
  }

  /** Line 26. */
  function StatusTopic(sensorName: string): string
  {
    StatusPrefix + sensorName + StatusSuffix
  }

  /** The sensor a discovery topic is for, if `topic` is one. */
  function DiscoveryTopicSensor(topic: string): Option<string>
  {
    if |topic| >= |DiscoveryPrefix| + |DiscoverySuffix|
       && topic[..|DiscoveryPrefix|] == DiscoveryPrefix
       && topic[|topic| - |DiscoverySuffix|..] == DiscoverySuffix
    then Some(topic[|DiscoveryPrefix|..|topic| - |DiscoverySuffix|])
    else None
  }

  /** The sensor a status topic is for, if `topic` is one. */
  function StatusTopicSensor(topic: string): Option<string>
  {
    if |topic| >= |StatusPrefix| + |StatusSuffix|
       && topic[..|StatusPrefix|] == StatusPrefix
       && topic[|topic| - |StatusSuffix|..] == StatusSuffix
    then Some(topic[|StatusPrefix|..|topic| - |StatusSuffix|])
    else None
  }

  /** A discovery topic names its sensor, and a topic that names a sensor
      is that sensor's discovery topic: distinct sensors never share one. */
  lemma DiscoveryTopicRoundTrip(sensorName: string, topic: string)
    ensures DiscoveryTopicSensor(DiscoveryTopic(sensorName)) == Some(sensorName)
    ensures DiscoveryTopicSensor(topic) == Some(sensorName) ==> topic == DiscoveryTopic(sensorName)
  {
    var t := DiscoveryTopic(sensorName);
    assert t[..|DiscoveryPrefix|] == DiscoveryPrefix;
    assert t[|t| - |DiscoverySuffix|..] == DiscoverySuffix;
    assert t[|DiscoveryPrefix|..|t| - |DiscoverySuffix|] == sensorName;
    if DiscoveryTopicSensor(topic) == Some(sensorName) {
      var p, q := |DiscoveryPrefix|, |topic| - |DiscoverySuffix|;
      assert topic == topic[..p] + topic[p..q] + topic[q..];
    }
  }

  /** The same for status topics. */
  lemma StatusTopicRoundTrip(sensorName: string, topic: string)
    ensures StatusTopicSensor(StatusTopic(sensorName)) == Some(sensorName)
    ensures StatusTopicSensor(topic) == Some(sensorName) ==> topic == StatusTopic(sensorName)
  {
    var t := StatusTopic(sensorName);
    assert t[..|StatusPrefix|] == StatusPrefix;
    assert t[|t| - |StatusSuffix|..] == StatusSuffix;
    assert t[|StatusPrefix|..|t| - |StatusSuffix|] == sensorName;
    if StatusTopicSensor(topic) == Some(sensorName) {
      var p, q := |StatusPrefix|, |topic| - |StatusSuffix|;
      assert topic == topic[..p] + topic[p..q] + topic[q..];
    }
  }

  /** A sensor's discovery (configuration) topic is never any sensor's
      status topic. */
  lemma TopicsDisjoint(a: string, b: string)
    ensures DiscoveryTopic(a) != StatusTopic(b)
  {
    assert DiscoveryTopic(a)[0] == 'h';
    assert StatusTopic(b)[0] == 't';
  }

  /** Line 32: the f-string `{{{{ value_json.{value_field} }}}}`. */
  function ValueTemplate(valueField: string): string
  {
    Unescape("{{{{ value_json.") + valueField + Unescape(" }}}}")
  }

  /** The template Home Assistant receives is the Jinja expression
      `{{ value_json.<field> }}`: each doubled brace of the f-string is one
      brace. */
  lemma ValueTemplateText(valueField: string)
    ensures ValueTemplate(valueField) == "{{ value_json." + valueField + " }}"
  {
    TemplateIsEscaped();
    UnescapeEscape("{{ value_json.");
    UnescapeEscape(" }}");
  }

  /** The literal parts of line 32 are the escaped forms of the Jinja
      delimiters `{{ value_json.` and ` }}`. */
  lemma TemplateIsEscaped()
    ensures Escape("{{ value_json.") == "{{{{ value_json."
    ensures Escape(" }}") == " }}}}"
  {
    TemplateLiterals();
    PlainField();
    EscapePlain(" value_json.");
    EscapeFirst('{', " value_json.");
    EscapeFirst('{', "{" + " value_json.");
    EscapePlain("");
    EscapeFirst('}', "");
    EscapeFirst('}', "}" + "");
    EscapeFirst(' ', "}" + ("}" + ""));
  }

  /** The f-string literal parts of line 32, written brace by brace. */
  lemma TemplateLiterals()
    ensures "{{{{ value_json." == "{{" + ("{{" + " value_json.")
    ensures "{{ value_json." == "{" + ("{" + " value_json.")
    ensures " }}}}" == " " + ("}}" + ("}}" + ""))
    ensures " }}" == " " + ("}" + ("}" + ""))
  {
  }

  lemma PlainField()
    ensures forall i | 0 <= i < |" value_json."| :: " value_json."[i] != '{' && " value_json."[i] != '}'
  {
  }

  /** Text without braces is written as itself. */
  lemma {:induction false} EscapePlain(s: string)
    requires forall i | 0 <= i < |s| :: s[i] != '{' && s[i] != '}'
    ensures Escape(s) == s
  {
    if s != [] {
      EscapePlain(s[1..]);
    }
  }

  /** Escaping one character in front of the rest. */
  lemma EscapeFirst(c: char, rest: string)
    ensures Escape([c] + rest)
      == (if c == '{' then "{{" else if c == '}' then "}}" else [c]) + Escape(rest)
  {
    assert ([c] + rest)[1..] == rest;
  }

  /** Python truthiness of an optional string argument: `None` and the empty
      string are false. */
  predicate Truthy(o: Option<string>)
  {
    o.Some? && o.value != ""
  }

  const RequiredKeys: seq<string> :=
    ["name", "state_topic", "value_template", "json_attributes_topic", "unique_id", "dev"]

  /** Lines 29-36: the dict display the message starts from. */
  function BaseMessage(sensorName: string, valueField: string): Dict
  {
    Dict(RequiredKeys, map[
      "name" := Str(sensorName),
      "state_topic" := Str(StatusTopic(sensorName)),
      "value_template" := Str(ValueTemplate(valueField)),
      "json_attributes_topic" := Str(StatusTopic(sensorName)),
      "unique_id" := Str(UniqueIdPrefix + sensorName),
      "dev" := DiscoveryContentDevice
    ])
  }

  /** Lines 28-42: the discovery message before it is serialised. */
  function DiscoveryMessage(sensorName: string, valueField: string,
                            unitOfMeasurement: Option<string>, deviceClass: Option<string>): Dict
  {
    var message := BaseMessage(sensorName, valueField);
    var withUnit :=
      if Truthy(unitOfMeasurement) then Assign(message, "unit_of_measurement", Str(unitOfMeasurement.value))
      else message;
    if Truthy(deviceClass) then Assign(withUnit, "device_class", Str(deviceClass.value))
    else withUnit
  }

  /** The display has six distinct keys; neither optional key is among them. */
  lemma BaseMessageShape(sensorName: string, valueField: string)
    ensures ValidDict(BaseMessage(sensorName, valueField))
    ensures Get(BaseMessage(sensorName, valueField), "unit_of_measurement") == None
    ensures Get(BaseMessage(sensorName, valueField), "device_class") == None
  {
    RequiredKeysDistinct();
    var m := BaseMessage(sensorName, valueField);
    assert forall k :: k in m.values <==> k in m.keys;
  }

  /** The six keys differ from each other and from the two optional keys
      (their lengths already differ). */
  lemma RequiredKeysDistinct()
    ensures Distinct(RequiredKeys)
    ensures "unit_of_measurement" !in RequiredKeys && "device_class" !in RequiredKeys
  {
    var lengths := [4, 11, 14, 21, 9, 3];
    assert forall i | 0 <= i < 6 :: |RequiredKeys[i]| == lengths[i];
  }

  /** The message is a well-formed dict whose keys are the six required
      ones in order, then `unit_of_measurement` exactly when a truthy unit is
      given, then `device_class` exactly when a truthy class is given, and
      nothing else. */
  lemma DiscoveryMessageKeys(sensorName: string, valueField: string,
                             unitOfMeasurement: Option<string>, deviceClass: Option<string>)
    ensures var m := DiscoveryMessage(sensorName, valueField, unitOfMeasurement, deviceClass);
      && ValidDict(m)
      && m.keys
         == RequiredKeys
            + (if Truthy(unitOfMeasurement) then ["unit_of_measurement"] else [])
            + (if Truthy(deviceClass) then ["device_class"] else [])
  {
    var message := BaseMessage(sensorName, valueField);
    BaseMessageShape(sensorName, valueField);
    var withUnit := message;
    if Truthy(unitOfMeasurement) {
      withUnit := Assign(message, "unit_of_measurement", Str(unitOfMeasurement.value));
      AssignProperties(message, "unit_of_measurement", Str(unitOfMeasurement.value));
    }
    assert Get(withUnit, "device_class") == None;
    if Truthy(deviceClass) {
      AssignProperties(withUnit, "device_class", Str(deviceClass.value));
    }
  }

  /** What each key of the display holds. */
  lemma BaseMessageFields(sensorName: string, valueField: string)
    ensures var m := BaseMessage(sensorName, valueField);
      && Get(m, "name") == Some(Str(sensorName))
      && Get(m, "state_topic") == Some(Str(StatusTopic(sensorName)))
      && Get(m, "value_template") == Some(Str(ValueTemplate(valueField)))
      && Get(m, "json_attributes_topic") == Some(Str(StatusTopic(sensorName)))
      && Get(m, "unique_id") == Some(Str(UniqueIdPrefix + sensorName))
      && Get(m, "dev") == Some(DiscoveryContentDevice)
  {
    RequiredKeysDistinct();
  }

  /** What each key of the message holds. Both topics are the sensor's
      status topic, the template reads the given field, the optional keys
      carry the given strings and are absent otherwise. */
  lemma DiscoveryMessageFields(sensorName: string, valueField: string,
                               unitOfMeasurement: Option<string>, deviceClass: Option<string>)
    ensures var m := DiscoveryMessage(sensorName, valueField, unitOfMeasurement, deviceClass);
      && Get(m, "name") == Some(Str(sensorName))
      && Get(m, "state_topic") == Some(Str(StatusTopic(sensorName)))
      && Get(m, "json_attributes_topic") == Get(m, "state_topic")
      && Get(m, "value_template") == Some(Str("{{ value_json." + valueField + " }}"))
      && Get(m, "unique_id") == Some(Str(UniqueIdPrefix + sensorName))
      && Get(m, "dev") == Some(DiscoveryContentDevice)
      && Get(m, "unit_of_measurement")
         == (if Truthy(unitOfMeasurement) then Some(Str(unitOfMeasurement.value)) else None)
      && Get(m, "device_class")
         == (if Truthy(deviceClass) then Some(Str(deviceClass.value)) else None)
  {
    ValueTemplateText(valueField);
    var message := BaseMessage(sensorName, valueField);
    BaseMessageShape(sensorName, valueField);
    BaseMessageFields(sensorName, valueField);
    var withUnit := message;
    if Truthy(unitOfMeasurement) {
      withUnit := Assign(message, "unit_of_measurement", Str(unitOfMeasurement.value));
      AssignProperties(message, "unit_of_measurement", Str(unitOfMeasurement.value));
    }
    if Truthy(deviceClass) {
      AssignProperties(withUnit, "device_class", Str(deviceClass.value));
    }
  }
}
