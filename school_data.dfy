/** The knowledge store of lib/school-data.ts: one process-wide record
    holding the school's descriptive text and the time it was last
    replaced. The store does no validation of its own; it is read whole and
    replaced whole. */
module SchoolData {
  import opened Text

  /** A wall-clock instant (`Date`), as milliseconds since the epoch. The
      clock itself is not modelled: every operation that reads it takes the
      instant as a parameter. */
  type Timestamp = int

  /** The `SchoolData` record: `{ content, lastUpdated }`. */
  datatype SchoolRecord = SchoolRecord(content: string, lastUpdated: Timestamp)

  /** The paragraphs of the built-in text, in order. */
  const Paragraphs: seq<string> := [
    Paragraph00, Paragraph01, Paragraph02, Paragraph03,
    Paragraph04, Paragraph05, Paragraph06, Paragraph07,
    Paragraph08, Paragraph09, Paragraph10, Paragraph11,
    Paragraph12, Paragraph13, Paragraph14, Paragraph15,
    Paragraph16, Paragraph17, Paragraph18, Paragraph19,
    Paragraph20, Paragraph21, Paragraph22, Paragraph23,
    Paragraph24, Paragraph25, Paragraph26, Paragraph27
  ]

  /** The built-in text the store holds from process start until the first
      update (the `content` of `DEFAULT_SCHOOL_DATA`): its paragraphs
      separated by blank lines. */
  const DefaultContent: string := Join(Paragraphs, Blank)

  const Blank := "\n\n"

  const Paragraph00 := @"# Introduction"
  const Paragraph01 := @"Mar Baselios Public School, located at Devalokam in Kottayam, Kerala, is a renowned institution committed to delivering quality education rooted in strong moral and cultural values. Established in 2001 under the patronage of the Malankara Orthodox Syrian Church, the school has earned a stellar reputation for academic excellence and holistic development. Its location beside the Catholicate Aramana gives it a serene and spiritually uplifting environment, ideal for a student's educational journey."
  const Paragraph02 := @"Affiliated to the Central Board of Secondary Education (CBSE), New Delhi, the school follows a modern, well-structured curriculum designed to equip students with skills that go beyond textbooks. The academic programs are regularly updated and taught using effective pedagogical practices that foster curiosity, problem-solving, and lifelong learning. English is the medium of instruction, and special focus is given to proficiency in languages, mathematics, and sciences."
  const Paragraph03 := @"The school consistently secures excellent results in CBSE board examinations, both in the secondary and senior secondary levels. Year after year, students from Mar Baselios achieve top scores and gain admission to prestigious colleges and universities across the country and abroad. These results are a testimony to the dedicated staff, motivated students, and supportive parents who form the backbone of the school community."
  const Paragraph04 := @"Mar Baselios Public School goes beyond academics by emphasizing co-curricular and extracurricular development. Students actively participate in cultural events, debates, arts, music, sports, and interschool competitions. Events such as “Kids Fest” and “Baselian Ensemble” are conducted annually to encourage talent and creativity. The school believes that every child is unique and deserves opportunities to discover and nurture their hidden potential."
  const Paragraph05 := @"The school houses well-equipped laboratories for Physics, Chemistry, Biology, Computer Science, Mathematics, and even emerging areas like Robotics and Psychology. These labs are designed to provide hands-on experience, helping students to understand theoretical concepts through practical application. Additionally, smart classrooms with digital boards and audio-visual tools enhance the learning experience."
  const Paragraph06 := @"The campus is lush, green, and spacious, offering a peaceful atmosphere that encourages concentration and discipline. The infrastructure includes a vast library with a diverse collection of books and reference materials, a hygienic cafeteria, reliable school bus services, and a large multipurpose auditorium for school assemblies and performances. The physical environment is both safe and stimulating for students from kindergarten through senior secondary."
  const Paragraph07 := @"Mar Baselios also prioritizes student well-being and mental health. Qualified counsellors and student support staff provide guidance, emotional support, and personal development sessions. Programs on mindfulness, peer relationships, and self-esteem building are regularly conducted to ensure students grow up with resilience and confidence. The school believes in educating the whole child—not just academically, but emotionally and socially as well."
  const Paragraph08 := @"Environmental consciousness is an important pillar of the school’s values. Students are encouraged to participate in green initiatives such as planting trees, maintaining a clean campus, recycling drives, and water conservation. Clubs and houses take turns managing eco-friendly practices, and the school garden serves both as a learning space and a symbol of its sustainability efforts."
  const Paragraph09 := @"Mar Baselios maintains a strong bond with the parent community, valuing open communication, transparency, and collective decision-making. Parent-teacher meetings are held regularly, and feedback is welcomed with an open mind. The school management, led by experienced educational leaders and clergy members of the Malankara Orthodox Syrian Church, ensures that the institution runs with clarity of vision and moral integrity."
  const Paragraph10 := @"In conclusion, Mar Baselios Public School, Devalokam is more than just a school—it is a vibrant community that nurtures young minds to become responsible, compassionate, and successful global citizens. With its blend of academic strength, moral foundation, and progressive outlook, the school stands tall as one of Kottayam’s most respected educational institutions, committed to shaping future generations with purpose and pride."
  const Paragraph11 := @"## ATL LAB"
  const Paragraph12 := @"## 1. Introduction"
  const Paragraph13 := @"At Mar Baselios Public School, the ATL (Atal Tinkering Lab) is a dedicated innovation workspace designed to foster creativity, problem‑solving, and hands‑on learning in students. It is widely recognized that ATLs are generally supported by the Atal Innovation Mission (AIM), and many schools partner with educational organizations to manage and mentor lab activities. If **Hownwhy Education** is involved, they likely provide operational support, training, and curriculum-aligned project guidance."
  const Paragraph14 := @"## 2. Infrastructure & Setup"
  const Paragraph15 := @"In a typical ATL setup, students gain access to tools including science kits, electronics modules (Arduino, sensors), robotics parts, 3D printers, microcontroller boards, and computers—allowing them to prototype and experiment. Hownwhy Education may have facilitated procurement of such equipment and ensured that lab infrastructure aligns with AIM guidelines."
  const Paragraph16 := @"## 3. Skill Development Framework"
  const Paragraph17 := @"Under guidance from Hownwhy Education, the lab likely focuses on building 21st‑century skills: computational thinking, design mindset, adaptive learning, physical computing and ethical leadership. These mirror ATL objectives and broader aims of nurturing scientific temper among youth. The things we offer includes "
  const Paragraph18 := @"1. Mentor Support 
2. Exhibition Support
3. HownWhy Budding Technologist(HBT)
4. Industrial visit 
5. Hackathons
6. Skill development programs"
  const Paragraph19 := @"## 4. Project-Based Learning"
  const Paragraph20 := @"Students would be encouraged to ideate, design, and build projects—such as voice-controlled robots, smart irrigation systems or LED circuits. Many ATL initiatives across India have included Arduino-based prototypes, PCB etching, and sensors. If managed by Hownwhy, these methodologies would be integrated into regular ATL programming"
  const Paragraph21 := @"## 5. Workshops & Mentorship"
  const Paragraph22 := @"Regular hands‑on workshops like “design thinking,” “creativity & problem solving,” IoT, and robotics are standard in active ATLs. Hownwhy Education might be organizing these, either in-house or via collaborations, to train students and teachers alike as mentors and innovators. We’ve conducted a drone workshop for the community students exploring the concepts of drone and building a drone."
  const Paragraph23 := @"## 6. Competitions & Fairs"
  const Paragraph24 := @"Generally, ATLs participate in events such as ATL Marathon, Tinkerpreneur, and regional fairs. Under Hownwhy Education’s mentorship, the school’s teams might be submitting innovative projects and competing at state or national levels, and potentially getting selected among top teams depending on performance."
  const Paragraph25 := @"---"
  const Paragraph26 := @"## 7. Notable Projects & Outcomes"
  const Paragraph27 := @"While specific details from Mar Baselios are unavailable, typical school ATL achievements include developing prototypes like touchless systems, smart devices, or sustainability-focused inventions—projects frequently cited in ATL case studies across India."

  /** The module variable `schoolData`, with `getSchoolData` and
      `updateSchoolData` as its methods. */
  class Store {
    var data: SchoolRecord

    /** Module load: the store starts out holding `DEFAULT_SCHOOL_DATA`,
        the built-in text stamped with the instant the module was loaded. */
    constructor (loadedAt: Timestamp)
      ensures data == SchoolRecord(DefaultContent, loadedAt)
    {
      data := SchoolRecord(DefaultContent, loadedAt);
    }

    /** `getSchoolData()`: the current record, with no side effect (the
        method may modify nothing). */
    method Get() returns (r: SchoolRecord)
      ensures r == data
    {
      r := data;
    }

    /** `updateSchoolData(newContent)` at instant `now`: replaces the
        record wholesale, whatever `newContent` is (the empty text
        included), and returns the record now stored. */
    method Update(newContent: string, now: Timestamp) returns (r: SchoolRecord)
      modifies this
      ensures data == SchoolRecord(newContent, now)
      ensures r == data
    {
      data := SchoolRecord(newContent, now);
      r := data;
    }
  }

  /** A client of the store: what a reader sees after two updates depends
      only on the second one, and a read right after an update returns the
      record the update returned. */
  method LastWriterWins(store: Store, first: string, second: string, t1: Timestamp, t2: Timestamp)
    returns (returned: SchoolRecord, seen: SchoolRecord)
    modifies store
    ensures returned == SchoolRecord(second, t2)
    ensures seen == returned && store.data == seen
  {
    var _ := store.Update(first, t1);
    returned := store.Update(second, t2);
    seen := store.Get();
  }
}
