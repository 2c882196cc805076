/**
 * The locale store of src/localization.js: two fixed translation tables, a
 * current locale that is always one of them, lookup with fallback to the key,
 * and the switch the navigation menu performs.
 */
module Localization {
  import opened Wrappers

  /** The English table. */
  const En: map<string, string> :=
    map[
      "navLang" := "./public/images/tr.png",
      "navLangValue" := "tr",
      "navEmployees" := "Employees",
      "navAddNew" := "Add New",
      "titleEmployees" := "Employee List",
      "titleEditEmployee" := "Edit Employee",
      "viewList" := "List View",
      "viewCard" := "Card View",
      "viewSearch" := "Search...",
      "addNew" := "Add New",
      "edit" := "Edit",
      "delete" := "Delete",
      "confirmDelete" := "Are you sure you want to delete this record?",
      "save" := "Save",
      "cancel" := "Cancel",
      "close" := "Close",
      "proceed" := "Proceed",
      "deleteDialogTitle" := "Are you sure?",
      "deleteDialogMessage" := "Selected record of ",
      "deleteDialogMessage2" := " will be deleted!",
      "editDialogMessage" := "You are editing: ",
      "name" := "Name",
      "position" := "Position",
      "actions" := "Actions",
      "firstName" := "First Name",
      "lastName" := "Last Name",
      "dateOfEmployment" := "Date of Employment",
      "dateOfBirth" := "Date of Birth",
      "phone" := "Phone",
      "email" := "Email",
      "department" := "Department",
      "required" := "Required",
      "emailExists" := "This email already exists!",
      "phoneExists" := "This phone number already exists!",
      "selectDepartment" := "Select Department",
      "selectPosition" := "Select Position",
      "analytics" := "Analytics",
      "tech" := "Tech",
      "junior" := "Junior",
      "medior" := "Medior",
      "senior" := "Senior",
      "updateRecordInfo" := "You are editing ",
      "updateRecord" := "Update this record?",
      "invalidPhoneFormat" := "Please enter phone as +(90) 555 123 45 67"
    ]

  /** The Turkish table. */
  const Tr: map<string, string> :=
    map[
      "navLang" := "./public/images/en.png",
      "navLangValue" := "en",
      "navEmployees" := "Çalışanlar",
      "navAddNew" := "Yeni Ekle",
      "titleEmployees" := "Çalışan Listesi",
      "titleEditEmployee" := "Çalışanı Düzenle",
      "viewList" := "Liste Görünümü",
      "viewCard" := "Kart Görünümü",
      "viewSearch" := "Ara...",
      "addNew" := "Yeni Ekle",
      "edit" := "Düzenle",
      "delete" := "Sil",
      "confirmDelete" := "Bu kaydı silmek istediğinizden emin misiniz?",
      "save" := "Kaydet",
      "cancel" := "İptal",
      "close" := "Kapat",
      "proceed" := "Devam Et",
      "deleteDialogTitle" := "Emin misiniz?",
      "deleteDialogMessage" := "",
      "deleteDialogMessage2" := " kişisinin kaydı silinecek!",
      "editDialogMessage" := "Düzenlediğiniz Kişi: ",
      "name" := "Ad Soyad",
      "position" := "Pozisyon",
      "actions" := "İşlemler",
      "firstName" := "Ad",
      "lastName" := "Soyad",
      "dateOfEmployment" := "İşe Giriş Tarihi",
      "dateOfBirth" := "Doğum Tarihi",
      "phone" := "Telefon",
      "email" := "E-posta",
      "department" := "Departman",
      "required" := "Zorunlu",
      "emailExists" := "Bu e-posta zaten mevcut!",
      "phoneExists" := "Bu telefon numarası zaten mevcut!",
      "selectDepartment" := "Departman Seç",
      "selectPosition" := "Pozisyon Seç",
      "analytics" := "Analitik",
      "tech" := "Teknoloji",
      "junior" := "Yeni",
      "medior" := "Orta",
      "senior" := "Kıdemli",
      "updateRecordInfo" := "Düzenlediğiniz kişi ",
      "updateRecord" := "Kaydı güncellemek istiyor musunuz?",
      "invalidPhoneFormat" := "Lütfen telefon numarasını +(90) 555 123 45 67 şeklinde girin"
    ]

  /** `translations`: locale code to table. */
  const Translations: map<string, map<string, string>> := map["en" := En, "tr" := Tr]

  const DefaultLocale: string := "en"

  /** `translations[code]` is truthy: the code names a table. */
  predicate Known(code: string) {
    code in Translations
  }

  /**
   * The locale chosen at start-up: the saved code when it names a table,
   * otherwise the document's `lang` when it names one, otherwise English.
   */
  function InitialLocale(saved: Option<string>, htmlLang: string): (r: string)
    ensures Known(r)
    ensures r == DefaultLocale || (saved.Some? && r == saved.value) || r == htmlLang
    ensures saved.Some? && Known(saved.value) ==> r == saved.value
    ensures (saved.None? || !Known(saved.value)) && Known(htmlLang) ==> r == htmlLang
    ensures (saved.None? || !Known(saved.value)) && !Known(htmlLang) ==> r == DefaultLocale
  {
    if saved.Some? && Known(saved.value) then saved.value
    else if Known(htmlLang) then htmlLang
    else DefaultLocale
  }

  /**
   * `(translations[locale] || {})[key] ?? key`: the entry when the table has
   * one, even an empty one, and the key itself otherwise.
   */
  function Lookup(locale: string, key: string): (r: string)
    ensures Known(locale) && key in Translations[locale] ==> r == Translations[locale][key]
    ensures !(Known(locale) && key in Translations[locale]) ==> r == key
  {
    var dict := if Known(locale) then Translations[locale] else map[];
    if key in dict then dict[key] else key
  }

  /** The other table's code: what each table's `navLangValue` entry holds. */
  function Other(code: string): string {
    if code == "en" then "tr" else "en"
  }

  /** A missing key comes back unchanged, in every locale. */
  lemma MissingKeyFallsBack(locale: string, key: string)
    requires key !in En && key !in Tr
    ensures Lookup(locale, key) == key
  {
  }

  /** `??` keeps an empty entry: the Turkish `deleteDialogMessage` is `""`, not its key. */
  lemma EmptyEntryIsKept()
    ensures Lookup("tr", "deleteDialogMessage") == ""
    ensures Lookup("en", "deleteDialogMessage") == "Selected record of "
  {
  }

  lemma EnglishNavLangValue()
    ensures "navLangValue" in En && En["navLangValue"] == "tr"
  {
  }

  lemma TurkishNavLangValue()
    ensures "navLangValue" in Tr && Tr["navLangValue"] == "en"
  {
  }

  /** Each table's `navLangValue` names the other known table. */
  lemma NavLangValueNamesOther(code: string)
    requires Known(code)
    ensures Known(Lookup(code, "navLangValue"))
    ensures Lookup(code, "navLangValue") == Other(code) && Other(code) != code
  {
    if code == "en" {
      EnglishNavLangValue();
    } else {
      TurkishNavLangValue();
    }
  }

  /** Every error key and field key the form can set has an entry in both tables. */
  lemma FormMessagesTranslated(key: string)
    requires key in {"required", "emailExists", "phoneExists", "invalidPhoneFormat", "firstName", "lastName",
                     "dateOfEmployment", "dateOfBirth", "phone", "email", "department", "position"}
    ensures key in En && key in Tr
  {
  }

  /** The module-level `currentLocale`, with the code last written to storage. */
  class LocaleStore {
    var currentLocale: string
    ghost var saved: Option<string>

    ghost predicate Valid()
      reads this
    {
      Known(currentLocale)
    }

    /** The start-up choice; `saved` is what storage held, `htmlLang` the document's `lang`. */
    constructor (saved: Option<string>, htmlLang: string)
      ensures Valid()
      ensures currentLocale == InitialLocale(saved, htmlLang) && this.saved == saved
    {
      currentLocale := InitialLocale(saved, htmlLang);
      this.saved := saved;
    }

    /** `setLocale`: an unknown code changes nothing; a known one becomes current and is saved. */
    method SetLocale(locale: string)
      requires Valid()
      modifies this
      ensures Valid()
      ensures Known(locale) ==> currentLocale == locale && saved == Some(locale)
      ensures !Known(locale) ==> currentLocale == old(currentLocale) && saved == old(saved)
    {
      if !Known(locale) {
        return;
      }
      currentLocale := locale;
      saved := Some(locale);
    }

    /** `t(key)` in the current locale. */
    function T(key: string): (r: string)
      reads this
      requires Valid()
      ensures key in Translations[currentLocale] ==> r == Translations[currentLocale][key]
      ensures key !in Translations[currentLocale] ==> r == key
    {
      Lookup(currentLocale, key)
    }

    /** `getLocale`: always a known table. */
    function GetLocale(): (r: string)
      reads this
      requires Valid()
      ensures Known(r) && r == currentLocale
    {
      currentLocale
    }

    /**
     * The navigation menu's language button: `setLocale(t('navLangValue'))`.
     * The call is always accepted and alternates between the two tables.
     */
    method SwitchLanguage()
      requires Valid()
      modifies this
      ensures Valid()
      ensures currentLocale == Other(old(currentLocale)) && currentLocale != old(currentLocale)
      ensures saved == Some(currentLocale)
    {
      NavLangValueNamesOther(currentLocale);
      SetLocale(T("navLangValue"));
    }
  }
}
