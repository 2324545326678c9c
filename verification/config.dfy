/**
  The bot's configuration: the message catalogues and the `HH:MM`
  validator with its three-way error classification.
 */
module Config {
  import opened Wrappers
  import opened Strings
  import opened Numbers
  import opened Clock

  /** Openers used when no generated greeting is available. */
  const WakeUpMessages: seq<string> := [
    "¡Es hora de despertarse! 🌅",
    "¡Buenos días! ¡Hora de levantarse! ☀️",
    "¡Tu alarma está sonando! ⏰",
    "¡Despierta! ¡Es un nuevo día! 🌞",
    "¡Hora de empezar el día! 💪",
    "¡Tu alarma programada está activa! 🔔"
  ]

  /** Error texts, indexed by the keys the operations report. */
  const ErrorMessages: map<string, string> := map[
    "invalid_time" := "❌ Formato de hora inválido. Usa el formato HH:MM (ejemplo: 07:30)",
    "invalid_hour" := "❌ La hora debe estar entre 00 y 23",
    "invalid_minute" := "❌ Los minutos deben estar entre 00 y 59",
    "alarm_exists" := "⚠️ Ya tienes una alarma configurada para esta hora",
    "no_alarms" := "📭 No tienes alarmas configuradas",
    "alarm_not_found" := "❌ No se encontró ninguna alarma para esa hora",
    "general_error" := "❌ Ocurrió un error. Por favor, intenta nuevamente."
  ]

  /**
    A catalogue text, either plain or holding one `{time}` field, which
    `str.format(time=...)` fills in.
   */
  datatype Template = Plain(text: string) | WithTime(before: string, after: string) {

    function Format(time: string): (r: string)
      ensures WithTime? ==> |r| == |before| + |time| + |after|
      ensures WithTime? ==> r[..|before|] == before && r[|before|..|before| + |time|] == time
      ensures Plain? ==> r == text
    {
      match this
      case Plain(t) => t
      case WithTime(b, a) => b + time + a
    }
  }

  /** Success texts, indexed by key. */
  const SuccessMessages: map<string, Template> := map[
    "alarm_set" := WithTime("✅ Alarma configurada para las ", ". Se repetirá diariamente."),
    "alarm_removed" := WithTime("✅ Alarma de las ", " eliminada correctamente."),
    "all_alarms_removed" := Plain("✅ Todas las alarmas han sido eliminadas.")
  ]

  /** The result of `validate_time_format`: `(True, None)` or `(False, key)`. */
  datatype TimeCheck = TimeOk | TimeError(key: string)

  /**
    `Config.validate_time_format`: the text must split on ':' into exactly
    two integers; the hour is range-checked before the minute.
   */
  function ValidateTimeFormat(s: string): (r: TimeCheck)
    ensures r.TimeError? ==> r.key in ErrorMessages
    ensures ClockFields(s).None? ==> r == TimeError("invalid_time")
    ensures ClockFields(s).Some? ==>
      var (hour, minute) := ClockFields(s).value;
      r == (if hour < 0 || hour > 23 then TimeError("invalid_hour")
            else if minute < 0 || minute > 59 then TimeError("invalid_minute")
            else TimeOk)
  {
    SplitFields(s);
    var parts := Split(s, ':');
    if |parts| != 2 then TimeError("invalid_time")
    else
      var hour := ParseInt(parts[0]);
      if hour.None? then TimeError("invalid_time")
      else
        var minute := ParseInt(parts[1]);
        if minute.None? then TimeError("invalid_time")
        else if hour.value < 0 || hour.value > 23 then TimeError("invalid_hour")
        else if minute.value < 0 || minute.value > 59 then TimeError("invalid_minute")
        else TimeOk
  }

  /** Every zero-padded `HH:MM` of the day validates; out-of-range ones are classified. */
  lemma ValidateClockText(hour: int, minute: int)
    ensures ValidateTimeFormat(ClockText(hour, minute)) ==
      (if hour < 0 || hour > 23 then TimeError("invalid_hour")
       else if minute < 0 || minute > 59 then TimeError("invalid_minute")
       else TimeOk)
  {
    ClockTextRoundTrip(hour, minute);
  }

  /** A text read as an in-range hour and minute validates. */
  lemma InRangeIsValid(s: string, hour: int, minute: int)
    requires ClockFields(s) == Some((hour, minute)) && InClockRange(hour, minute)
    ensures ValidateTimeFormat(s) == TimeOk
  {
  }

  /** Leading zeros are optional: "7:30" and "07:30" both validate. */
  lemma UnpaddedAccepted()
    ensures ValidateTimeFormat("07:30") == TimeOk
    ensures ValidateTimeFormat("7:30") == TimeOk
  {
    UnpaddedSameReading();
  }

  /** "07:30" and "7:30" are read as the same hour and minute. */
  lemma UnpaddedSameReading()
    ensures ClockFields("07:30") == ClockFields("7:30") == Some((7, 30))
  {
    ParseTwoDigits('3', '0');
    assert ClockFields("07:30") == Some((7, 30)) by {
      ParseTwoDigits('0', '7');
      ReadPair("07", "30", 7, 30);
      assert "07" + ":" + "30" == "07:30";
    }
    assert ClockFields("7:30") == Some((7, 30)) by {
      ParseOneDigit('7');
      ReadPair("7", "30", 7, 30);
      assert "7" + ":" + "30" == "7:30";
    }
  }

  /** The hour is reported before the minute. */
  lemma HourReportedFirst()
    ensures ValidateTimeFormat("24:99") == TimeError("invalid_hour")
  {
    assert ClockFields("24:99") == Some((24, 99)) by {
      ParseTwoDigits('2', '4');
      ParseTwoDigits('9', '9');
      ReadPair("24", "99", 24, 99);
      assert "24" + ":" + "99" == "24:99";
    }
  }

  /** A negative hour is refused as an invalid hour. */
  lemma NegativeHour()
    ensures ValidateTimeFormat("-1:30") == TimeError("invalid_hour")
  {
    assert ClockFields("-1:30") == Some((-1, 30)) by {
      ParseNegativeDigit('1');
      ParseTwoDigits('3', '0');
      ReadPair("-1", "30", -1, 30);
      assert "-1" + ":" + "30" == "-1:30";
    }
  }

  lemma MinuteOutOfRange()
    ensures ValidateTimeFormat("7:60") == TimeError("invalid_minute")
  {
    assert ClockFields("7:60") == Some((7, 60)) by {
      ParseOneDigit('7');
      ParseTwoDigits('6', '0');
      ReadPair("7", "60", 7, 60);
      assert "7" + ":" + "60" == "7:60";
    }
  }

  /** A text without a ':' is malformed. */
  lemma NoSeparator()
    ensures ValidateTimeFormat("7-30") == TimeError("invalid_time")
  {
    assert Count("7-30", ':') == 0;
  }

  /** A text with a second ':' is malformed. */
  lemma TwoSeparators()
    ensures ValidateTimeFormat("7:30:00") == TimeError("invalid_time")
  {
    assert "7:30:00" == "7:30" + ":00";
    CountConcat("7:30", ":00", ':');
    assert Count("7:30", ':') >= 1;
    assert Count(":00", ':') >= 1;
  }

  /** A piece that is not an integer is malformed. */
  lemma NonIntegerMinute()
    ensures ValidateTimeFormat("7:3a") == TimeError("invalid_time")
  {
    FieldsOfPair("7", "3a");
    assert "7" + ":" + "3a" == "7:3a";
    assert !IsDigit("3a"[1]);
  }
}
