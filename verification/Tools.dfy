/** The three tools the agents may call: the weather lookup over a fixed
    table, the greeting, and the farewell. Each is a pure function of its
    arguments; a failed lookup is returned as data, never raised. */
module Tools {
  import opened Wrappers
  import Text

  /** The dictionary a tool returns: `{"status": "success", "report": ...}`
      or `{"status": "error", "error_message": ...}`. */
  datatype WeatherReport =
    | Success(status: string, report: string)
    | Error(status: string, errorMessage: string)

  const SunnyHanoi := Success("success", "☀️ Hà Nội: Nắng đẹp, 25°C")

  /** The mock weather database, keyed by normalised city name. */
  const WeatherDb: map<string, WeatherReport> := map[
    "hanoi" := SunnyHanoi,
    "hànội" := SunnyHanoi,
    "london" := Success("success", "☁️ London: Nhiều mây, 15°C"),
    "tokyo" := Success("success", "🌧️ Tokyo: Mưa nhẹ, 18°C")
  ]

  /** The error message quotes the city between these two strings. */
  const UnknownCityPrefix := "Xin lỗi, không có thông tin thời tiết cho '"
  const UnknownCitySuffix := "'."

  /** The lookup key of a city name: lower-cased, every space dropped. */
  function Normalize(city: string): (key: string)
    ensures ' ' !in key
    ensures forall c :: c in key ==> !Text.IsUpper(c)
    ensures |key| <= |city|
  {
    var lowered := Text.Lower(city);
    var key := Text.RemoveSpaces(lowered);
    Text.RemoveSpacesCounts(lowered);
    assert forall c :: c in key ==> c in lowered by {
      forall c | c in key
        ensures c in lowered
      {
        assert multiset(key)[c] > 0;
      }
    }
    key
  }

  /** `get_weather(city)`: the table entry of the normalised name, or an
      error record whose message quotes the name exactly as given. */
  function GetWeather(city: string): (r: WeatherReport)
    ensures r.Success? <==> Normalize(city) in WeatherDb
    ensures r.Success? ==> r == WeatherDb[Normalize(city)]
    ensures r.Success? ==> r.status == "success" && r.report != ""
    ensures r.Error? ==> r.status == "error"
    ensures r.Error? ==> Text.Unquote(UnknownCityPrefix, UnknownCitySuffix, r.errorMessage) == Some(city)
  {
    var key := Normalize(city);
    if key in WeatherDb then
      WeatherDb[key]
    else
      var message := UnknownCityPrefix + city + UnknownCitySuffix;
      Text.UnquoteQuote(UnknownCityPrefix, UnknownCitySuffix, city);
      Error("error", message)
  }

  /** The key of a one-character name: a space vanishes, any other
      character is replaced by its lower-case partner. */
  lemma NormalizeSingle(c: char)
    ensures Normalize([c]) == if c == ' ' then [] else [Text.LowerChar(c)]
  {
  }

  /** The key of a concatenation is the concatenation of the keys. With
      NormalizeSingle this fixes the key of every name, character by
      character. */
  lemma {:induction false} NormalizeAppend(a: string, b: string)
    ensures Normalize(a + b) == Normalize(a) + Normalize(b)
  {
    Text.LowerAppend(a, b);
    Text.RemoveSpacesAppend(Text.Lower(a), Text.Lower(b));
  }

  /** The table as the source declares it: four keys, every entry a success
      record with a non-empty report, and both spellings of Hà Nội sharing
      one record. */
  lemma WeatherTable()
    ensures WeatherDb.Keys == {"hanoi", "hànội", "london", "tokyo"}
    ensures forall k :: k in WeatherDb ==> WeatherDb[k].Success? && WeatherDb[k].status == "success"
    ensures forall k :: k in WeatherDb ==> WeatherDb[k].report != ""
    ensures WeatherDb["hanoi"] == WeatherDb["hànội"]
  {
  }

  /** Normalising a normalised name changes nothing. */
  lemma {:induction false} NormalizeIdempotent(city: string)
    ensures Normalize(Normalize(city)) == Normalize(city)
  {
  }

  /** Every key of the table is already normalised, so every entry is
      reachable: looking up a key returns its own entry. */
  lemma {:induction false} EveryEntryReachable(key: string)
    requires key in WeatherDb
    ensures Normalize(key) == key
    ensures GetWeather(key) == WeatherDb[key]
  {
    assert Text.Lower(key) == key && ' ' !in key by {
      if key == "hanoi" {
        assert Text.Lower("hanoi") == "hanoi";
      } else if key == "hànội" {
        assert Text.Lower("hànội") == "hànội";
      } else if key == "london" {
        assert Text.Lower("london") == "london";
      } else {
        assert Text.Lower("tokyo") == "tokyo";
      }
    }
    assert Text.RemoveSpaces(key) == key;
  }

  /** Two names with the same key succeed or fail together; on success they
      get the very same record, and on failure the records differ exactly
      when the names do, because the message quotes the raw name. */
  lemma {:induction false} SameKeySameOutcome(a: string, b: string)
    requires Normalize(a) == Normalize(b)
    ensures GetWeather(a).Success? <==> GetWeather(b).Success?
    ensures GetWeather(a).Success? ==> GetWeather(a) == GetWeather(b)
    ensures GetWeather(a).Error? ==> (GetWeather(a) == GetWeather(b) <==> a == b)
  {
  }

  /** A name whose lower-case form holds exactly one space normalises to
      the two halves joined. */
  lemma {:induction false} NormalizeOneSpace(city: string, a: string, b: string)
    requires Text.Lower(city) == a + " " + b
    requires ' ' !in a && ' ' !in b
    ensures Normalize(city) == a + b
  {
    Text.RemoveOneSpace(a, b);
  }

  /** Hà Nội is found however it is capitalised, and with or without its
      accents (the table holds both spellings); a space inside a name does
      not stop the lookup. */
  lemma AccentedHanoiExample()
    ensures GetWeather("Hà Nội") == SunnyHanoi
  {
    assert Normalize("Hà Nội") == "hànội" by {
      assert Text.Lower("Hà Nội") == "hà nội" by {
        assert Text.LowerChar('H') == 'h';
        assert Text.LowerChar('N') == 'n';
      }
      NormalizeOneSpace("Hà Nội", "hà", "nội");
      assert "hà" + "nội" == "hànội";
    }
  }

  lemma CapitalHanoiExample()
    ensures GetWeather("HÀ NỘI") == SunnyHanoi
  {
    assert Normalize("HÀ NỘI") == "hànội" by {
      assert Text.Lower("HÀ NỘI") == "hà nội" by {
        assert Text.LowerChar('H') == 'h';
        assert Text.LowerChar('À') == 'à';
        assert Text.LowerChar('N') == 'n';
        assert Text.LowerChar('Ộ') == 'ộ';
        assert Text.LowerChar('I') == 'i';
      }
      NormalizeOneSpace("HÀ NỘI", "hà", "nội");
      assert "hà" + "nội" == "hànội";
    }
  }

  lemma PlainHanoiExample()
    ensures GetWeather("Ha noi") == SunnyHanoi
  {
    assert Normalize("Ha noi") == "hanoi" by {
      assert Text.Lower("Ha noi") == "ha noi" by {
        assert Text.LowerChar('H') == 'h';
      }
      NormalizeOneSpace("Ha noi", "ha", "noi");
      assert "ha" + "noi" == "hanoi";
    }
  }

  lemma TokyoExample()
    ensures GetWeather("To kyo") == Success("success", "🌧️ Tokyo: Mưa nhẹ, 18°C")
  {
    assert Normalize("To kyo") == "tokyo" by {
      assert Text.Lower("To kyo") == "to kyo" by {
        assert Text.LowerChar('T') == 't';
      }
      NormalizeOneSpace("To kyo", "to", "kyo");
      assert "to" + "kyo" == "tokyo";
    }
  }

  /** An unknown city is reported as an error quoting the name verbatim. */
  lemma AtlantisExample()
    ensures GetWeather("Atlantis") == Error("error", UnknownCityPrefix + "Atlantis" + UnknownCitySuffix)
  {
  }

  /** The greeting text around a given name, and the greeting without one. */
  const HelloPrefix := "👋 Xin chào, "
  const HelloSuffix := "!"
  const AnonymousHello := "👋 Xin chào!"

  /** `say_hello(name)`: greets by name when the name is truthy (present and
      non-empty), otherwise the anonymous greeting. The name can always be
      read back out of the greeting. */
  function SayHello(name: Option<string>): (r: string)
    ensures Text.Unquote(HelloPrefix, HelloSuffix, r) == (if Text.Truthy(name) then name else None)
    ensures !Text.Truthy(name) ==> r == AnonymousHello
  {
    if Text.Truthy(name) then
      Text.UnquoteQuote(HelloPrefix, HelloSuffix, name.value);
      HelloPrefix + name.value + HelloSuffix
    else
      assert Text.Unquote(HelloPrefix, HelloSuffix, AnonymousHello) == None;
      AnonymousHello
  }

  /** Two greetings are equal exactly when both are anonymous or both name
      the same person. */
  lemma {:induction false} SayHelloInjective(a: Option<string>, b: Option<string>)
    ensures SayHello(a) == SayHello(b) <==>
      (Text.Truthy(a) == Text.Truthy(b) && (Text.Truthy(a) ==> a.value == b.value))
  {
  }

  /** `say_goodbye()`: a fixed farewell that no greeting can be mistaken for. */
  function SayGoodbye(): (r: string)
    ensures Text.Unquote(HelloPrefix, HelloSuffix, r) == None
    ensures r != AnonymousHello
    ensures forall name :: r != SayHello(name)
  {
    var farewell := "👋 Tạm biệt! Chúc bạn một ngày tốt lành! ✨";
    assert farewell[..|HelloPrefix|] != HelloPrefix by {
      assert farewell[2] != HelloPrefix[2];
    }
    farewell
  }
}
